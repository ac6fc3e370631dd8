/** write. */
module VnodeWrite {
  import DirBlocks
  import opened Arith
  import opened Bytes
  import opened Numbering
  import opened Layout
  import opened Inodes
  import opened State
  import opened Volumes
  import opened Effects
  import opened Files
  import opened Fsck
  import opened Vnodes
  import opened VnodeDirs
  import opened VnodeFind

  function Max(a: int, b: int): int {
    if a > b then a else b
  }

  /** The block the next write would add. */
  function NextIndex(size: nat, pos: nat, bs: nat): nat
    requires bs > 0
  {
    if Rem(size, bs) == 0 then Quot(pos, bs) else Quot(pos, bs) + 1
  }

  /** The writes the driver carries through rather than aborting: no whole block at once,
      and no block beyond the twelfth; and the file is not so long that counting its blocks
      in 32 bits wraps. */
  predicate Writable(size: nat, pos: nat, count: nat, bs: nat)
    requires bs > 0
  {
    var fill := Fills(size, pos, count, bs);
    && fill < bs && count - fill < bs && pos + count < U32_LIMIT && size + count < U32_LIMIT && size + bs <= U32_LIMIT
    && (count - fill > 0 ==> NextIndex(size, pos, bs) < DIRECT)
  }

  /** Bytes that go into the block at pos: none if the last block is full, or if the inode in
      memory has no such block (so that it cannot be read). */
  function Reached(inode: Inode, pos: nat, count: nat, bs: nat): (r: nat)
    requires bs > 0
    ensures r <= count
  {
    if Rem(inode.size, bs) == 0 || (Quot(pos, bs) < |inode.direct| && inode.direct[Quot(pos, bs)] == 0) then 0
    else Min(count, bs - Rem(pos, bs))
  }

  /** The writes the driver carries through rather than aborting, on the inode in memory,
      which may differ from the one on the device. */
  ghost predicate Carried(data: Data, inode: Inode, pos: nat, count: nat, bs: nat)
    requires bs > 0
  {
    var k := Quot(pos, bs);
    && |inode.direct| == DIRECT && pos + count < U32_LIMIT && inode.size + count < U32_LIMIT && inode.size + bs <= U32_LIMIT
    && (Rem(inode.size, bs) != 0 ==>
          k < DIRECT && Min(count, bs - Rem(pos, bs)) < bs && (inode.direct[k] == 0 || inode.direct[k] as nat in data))
    && count - Reached(inode, pos, count, bs) < bs
    && (count > Reached(inode, pos, count, bs) ==> NextIndex(inode.size, pos, bs) < DIRECT)
  }

  lemma {:induction false} OwnShape(v: View, geo: Geometry, inode: Inode)
    requires Sane(v, geo) && OwnBlocks(v, inode, geo.blockSize)
    ensures FileShape(v.data, inode, geo.blockSize)
  {
    forall k: nat | k < NBlocks(inode, geo.blockSize) ensures BlockThere(v.data, BlockNo(v.data, inode, k), geo.blockSize) {
      DataInRange(v, geo, inode.direct[k]);
    }
  }

  /** A position in a partly used file lies in one of its blocks. */
  lemma {:induction false} PosInside(inode: Inode, bs: nat, pos: nat)
    requires bs > 0 && pos <= inode.size && Rem(inode.size, bs) != 0
    ensures Quot(pos, bs) < NBlocks(inode, bs)
    ensures NBlocks(inode, bs) == Quot(inode.size, bs) + 1
  {
    DivSplit(inode.size, bs);
    assert Times(Quot(inode.size, bs) + 1, bs) == bs + Times(Quot(inode.size, bs), bs);
    CeilUnique(inode.size, Quot(inode.size, bs) + 1, bs);
    DivBound(pos, Quot(inode.size, bs) + 1, bs);
    DivBound(inode.size, Quot(inode.size, bs) + 1, bs);
  }

  /** The part of write that adds a block and puts d at its start; behind d the block gets
      whatever `block` held. Without space only the size in memory changes. */
  method PutBehind(fs: Volume, of: Ofile, block: array<byte>, index: nat, d: seq<byte>) returns (res: int, ghost no: nat)
    requires fs.Valid() && fs.geo.blockSize > 0 && block.Length == fs.geo.blockSize
    requires index < DIRECT && 0 < |d| < fs.geo.blockSize
    requires of.vnode.ino as nat in fs.view.table && InodeOk(of.vnode.inode, fs.geo.inodeSize)
    requires of.vnode.inode.size + |d| < U32_LIMIT
    modifies fs, of, of.vnode, block
    ensures fs.Valid()
    ensures old(fs.view).blocks.free == {} ==>
              && res == ENOSPC && fs.view == old(fs.view) && of.pos == old(of.pos)
              && of.vnode.inode == old(of.vnode.inode).(size := old(of.vnode.inode).size + |d|)
    ensures old(fs.view).blocks.free != {} ==>
              && res == 0 && of.pos == old(of.pos) + |d| && of.vnode.Synced(fs)
              && PutsBehind(old(fs.view), fs.view, fs.geo, of.vnode.ino as nat, old(of.vnode.inode), of.vnode.inode, index, no, d)
  {
    hide Rep, InodeOk, Sane, BlockTaken, Splice, PutsBehind;
    ghost var v, inode := fs.view, of.vnode.inode;
    VolumeSane(fs);
    of.vnode.inode := of.vnode.inode.(size := of.vnode.inode.size + |d|);
    SameInodeOk(inode, of.vnode.inode, fs.geo.inodeSize);
    res, no := AllocInodeBlock(fs, of.vnode, index);
    if res < 0 {
      return;
    }
    ghost var v1 := fs.view;
    VolumeSane(fs);
    TakenKnown(v, v1, fs.geo, of.vnode.ino as nat, inode.(size := inode.size + |d|), of.vnode.inode, index, no);
    DirBlocks.PutBytes(block, 0, d);
    PutSteps(v, v1, fs.geo, of.vnode.ino as nat, inode, of.vnode.inode, index, no, d, block[..]);
    var _ := WriteInodeBlock(fs, of.vnode.inode, index, block);
    of.pos := of.pos + |d|;
    res := 0;
  }

  /** Block `no`, the lowest free one, became block `index`, starts with d, and the inode
      with the larger size was written. */
  ghost predicate PutsBehind(v: View, v': View, geo: Geometry, ino: nat, inode: Inode, inode': Inode, index: nat, no: nat, d: seq<byte>) {
    && no in v.blocks.free && (forall n :: n in v.blocks.free ==> no <= n) && no < U32_LIMIT
    && inode.size + |d| < U32_LIMIT && index < |inode.direct|
    && inode' == inode.(size := inode.size + |d|, direct := inode.direct[index := no])
    && no in v'.data && |v'.data[no]| == geo.blockSize && |d| <= geo.blockSize && Sub(v'.data[no], 0, |d|) == d
    && Becomes(v, v', geo, v.blocks.free - {no}, v.inodes.free, v.table[ino := inode'], v.data[no := v'.data[no]])
  }

  lemma {:induction false} PutSteps(v: View, v1: View, geo: Geometry, ino: nat, inode: Inode, inode': Inode, index: nat, no: nat, d: seq<byte>, s: seq<byte>)
    requires Sane(v, geo) && Sane(v1, geo) && inode.size + |d| < U32_LIMIT
    requires BlockTaken(v, v1, geo, ino, inode.(size := inode.size + |d|), inode', index, no)
    requires |s| == geo.blockSize && |d| <= |s| && exists was: seq<byte> :: |was| == |s| && s == Splice(was, 0, d)
    ensures PutsBehind(v, v1.(data := v1.data[no := s]), geo, ino, inode, inode', index, no, d)
  {
    var was: seq<byte> :| |was| == |s| && s == Splice(was, 0, d);
    assert Sub(s, 0, |d|) == d;
    WriteBecomes(v1, geo, v1.table, v1.data[no := s]);
    assert v1.(data := v1.data[no := s]) == v1.(table := v1.table, data := v1.data[no := s]);
  }

  // ---- what a write does to the file ---------------------------------------------------

  /** The write did what it should: the bytes are patched, only this file changed, and as
      many blocks were taken as the file now spans more. */
  ghost predicate WritesRight(v: View, v': View, geo: Geometry, ino: nat, inode: Inode, inode': Inode, pos: nat, d: seq<byte>, taken: set<nat>)
    requires geo.blockSize > 0
  {
    && pos <= inode.size
    && FileBytes(v'.data, inode', geo.blockSize) == Patched(FileBytes(v.data, inode, geo.blockSize), pos, d)
    && Changes(v, v', geo, ino, inode', v'.data, taken, {})
    && |v'.blocks.free| + NBlocks(inode', geo.blockSize) == |v.blocks.free| + NBlocks(inode, geo.blockSize)
  }

  /** Bytes put inside the blocks the file has do not change how many it spans. */
  lemma {:induction false} PatchSpan(inode: Inode, bs: nat, pos: nat, n: nat)
    requires bs > 0 && pos <= inode.size && Rem(inode.size, bs) != 0 && Rem(pos, bs) + n <= bs && pos + n < U32_LIMIT
    ensures CeilDiv(Max(pos + n, inode.size), bs) == NBlocks(inode, bs)
    ensures Quot(pos, bs) < NBlocks(inode, bs)
  {
    PosInside(inode, bs, pos);
    var k := Quot(pos, bs);
    DivSplit(pos, bs);
    TimesMono(k + 1, NBlocks(inode, bs), bs);
    assert Times(k + 1, bs) == bs + Times(k, bs);
    CeilBounds(inode.size, bs);
    CeilUnique(Max(pos + n, inode.size), NBlocks(inode, bs), bs);
  }

  /** The contents after bytes were put into the block at pos. */
  ghost function Inside(v: View, inode: Inode, bs: nat, pos: nat, d: seq<byte>): Data
    requires bs > 0
  {
    var k := Quot(pos, bs);
    if k < |inode.direct| && inode.direct[k] as nat in v.data && Rem(pos, bs) + |d| <= |v.data[inode.direct[k] as nat]|
    then v.data[inode.direct[k] as nat := Splice(v.data[inode.direct[k] as nat], Rem(pos, bs), d)] else v.data
  }

  lemma {:induction false} InsideFrame(v: View, geo: Geometry, inode: Inode, pos: nat, d: seq<byte>)
    requires Sane(v, geo) && OwnBlocks(v, inode, geo.blockSize)
    requires pos <= inode.size && Rem(inode.size, geo.blockSize) != 0 && Rem(pos, geo.blockSize) + |d| <= geo.blockSize
    requires pos + |d| < U32_LIMIT
    ensures var bs := geo.blockSize; var data' := Inside(v, inode, bs, pos, d);
            var inode' := inode.(size := Max(pos + |d|, inode.size));
            && data'.Keys == v.data.Keys && (forall b :: b in data' ==> |data'[b]| == bs)
            && (forall b :: b in v.data && b !in BlockSet(inode, bs) ==> data'[b] == v.data[b])
            && FileBytes(data', inode', bs) == Patched(FileBytes(v.data, inode, bs), pos, d)
            && NBlocks(inode', bs) == NBlocks(inode, bs)
  {
    var bs, k := geo.blockSize, Quot(pos, geo.blockSize);
    PatchSpan(inode, bs, pos, |d|);
    OwnShape(v, geo, inode);
    DataInRange(v, geo, inode.direct[k]);
    PatchBlock(v.data, inode, bs, pos, d);
    assert inode.direct[k] as nat in BlockSet(inode, bs);
  }

  lemma {:induction false} PatchRight(v: View, v': View, geo: Geometry, ino: nat, inode: Inode, pos: nat, d: seq<byte>)
    requires Sane(v, geo) && OwnBlocks(v, inode, geo.blockSize) && ino in v.table && v.table[ino] == inode
    requires pos <= inode.size && Rem(inode.size, geo.blockSize) != 0 && Rem(pos, geo.blockSize) + |d| <= geo.blockSize
    requires pos + |d| < U32_LIMIT
    requires v' == v.(data := Inside(v, inode, geo.blockSize, pos, d),
                      table := v.table[ino := inode.(size := Max(pos + |d|, inode.size))])
    ensures WritesRight(v, v', geo, ino, inode, inode.(size := Max(pos + |d|, inode.size)), pos, d, {})
  {
    var bs, inode' := geo.blockSize, inode.(size := Max(pos + |d|, inode.size));
    InsideFrame(v, geo, inode, pos, d);
    WriteBecomes(v, geo, v'.table, v'.data);
    assert InodeOk(inode', geo.inodeSize);
    assert v.blocks.free - {} + {} == v.blocks.free;
    hide Sane, Moved, Inside, FileBytes, Patched, InodeOk, BlockSet;
    forall k | 0 <= k < Span(inode', bs) ensures PointerOk(inode, inode', bs, {}, {}, k) {
    }
  }

  /** The state between the two parts of a write: the blocks the file had are full. */
  ghost predicate Filled(v: View, v1: View, geo: Geometry, inode: Inode, inode1: Inode, pos: nat, d: seq<byte>)
    requires geo.blockSize > 0
  {
    && v1 == v.(data := v1.data) && v1.data.Keys == v.data.Keys
    && (forall b :: b in v.data && b !in BlockSet(inode, geo.blockSize) ==> v1.data[b] == v.data[b])
    && inode1 == inode.(size := inode1.size) && NBlocks(inode1, geo.blockSize) == NBlocks(inode, geo.blockSize)
    && inode1.size == Times(NBlocks(inode1, geo.blockSize), geo.blockSize)
    && pos <= inode.size && pos + |d| == inode1.size
    && FileBytes(v1.data, inode1, geo.blockSize) == Patched(FileBytes(v.data, inode, geo.blockSize), pos, d)
  }

  lemma {:induction false} AppendBytes(v: View, v1: View, v2: View, geo: Geometry, ino: nat, inode: Inode, inode1: Inode, inode2: Inode, pos: nat, d1: seq<byte>, d2: seq<byte>, no: nat)
    requires Sane(v1, geo) && OwnBlocks(v, inode, geo.blockSize) && Filled(v, v1, geo, inode, inode1, pos, d1)
    requires 0 < |d2| < geo.blockSize && NBlocks(inode, geo.blockSize) < DIRECT
    requires PutsBehind(v1, v2, geo, ino, inode1, inode2, NBlocks(inode, geo.blockSize), no, d2)
    ensures FileBytes(v2.data, inode2, geo.blockSize) == Patched(FileBytes(v.data, inode, geo.blockSize), pos, d1 + d2)
    ensures NBlocks(inode2, geo.blockSize) == NBlocks(inode, geo.blockSize) + 1
  {
    var bs, n := geo.blockSize, NBlocks(inode, geo.blockSize);
    assert OwnBlocks(v1, inode1, bs);
    OwnShape(v1, geo, inode1);
    forall k | 0 <= k < n ensures inode1.direct[k] as nat != no {
      assert inode1.direct[k] !in v.blocks.free;
    }
    AppendBlock(v1.data, inode1, bs, no, v2.data[no], d2);
    var f, f1 := FileBytes(v.data, inode, bs), FileBytes(v1.data, inode1, bs);
    AppendPatches(f1, d2);
    PatchedTwice(f, pos, d1, d2);
  }

  lemma {:induction false} AppendLengths(v: View, v1: View, v2: View, geo: Geometry, ino: nat, inode: Inode, inode1: Inode, inode2: Inode, pos: nat, d1: seq<byte>, d2: seq<byte>, no: nat)
    requires Sane(v, geo) && Sane(v1, geo) && OwnBlocks(v, inode, geo.blockSize) && Filled(v, v1, geo, inode, inode1, pos, d1)
    requires ino in v.table && v.table[ino] == inode && NBlocks(inode, geo.blockSize) < DIRECT
    requires NBlocks(inode2, geo.blockSize) == NBlocks(inode, geo.blockSize) + 1
    requires PutsBehind(v1, v2, geo, ino, inode1, inode2, NBlocks(inode, geo.blockSize), no, d2)
    ensures InodeOk(inode2, geo.inodeSize) && v2.data.Keys == v.data.Keys
    ensures forall b :: b in v2.data ==> |v2.data[b]| == geo.blockSize
  {
    hide NBlocks, OwnBlocks, FileBytes, Patched, BlockSet, Moved;
    FreeFits(v, geo, no);
    forall b | b in v2.data ensures |v2.data[b]| == geo.blockSize {
      if b != no {
        DataInRange(v1, geo, b);
      }
    }
  }

  lemma {:induction false} AppendPointers(inode: Inode, inode2: Inode, bs: nat, no: u32, taken: set<nat>, given: set<nat>)
    requires bs > 0 && |inode.direct| == DIRECT && NBlocks(inode, bs) < DIRECT && no as nat in taken && given == {}
    requires inode2.direct == inode.direct[NBlocks(inode, bs) := no] && NBlocks(inode2, bs) == NBlocks(inode, bs) + 1
    ensures forall k :: 0 <= k < Span(inode2, bs) ==> PointerOk(inode, inode2, bs, taken, given, k)
    ensures forall k :: Span(inode2, bs) <= k < |inode2.direct| ==> TailOk(inode, inode2, bs, k)
  {
    hide NBlocks;
  }

  lemma {:induction false} AppendChanges(v: View, v1: View, v2: View, geo: Geometry, ino: nat, inode: Inode, inode1: Inode, inode2: Inode, pos: nat, d1: seq<byte>, d2: seq<byte>, no: nat)
    requires Sane(v, geo) && Sane(v1, geo) && OwnBlocks(v, inode, geo.blockSize) && Filled(v, v1, geo, inode, inode1, pos, d1)
    requires ino in v.table && v.table[ino] == inode && NBlocks(inode, geo.blockSize) < DIRECT
    requires NBlocks(inode2, geo.blockSize) == NBlocks(inode, geo.blockSize) + 1
    requires PutsBehind(v1, v2, geo, ino, inode1, inode2, NBlocks(inode, geo.blockSize), no, d2)
    ensures Changes(v, v2, geo, ino, inode2, v2.data, {no}, {})
  {
    hide Sane, Moved, FileBytes, Patched, InodeOk, BlockSet, OwnBlocks, NBlocks, Span, PointerOk, TailOk;
    AppendLengths(v, v1, v2, geo, ino, inode, inode1, inode2, pos, d1, d2, no);
    assert v.blocks.free - {no} + {} == v.blocks.free - {no};
    SizePositive(v, geo);
    OwnTwelve(v, inode, geo.blockSize);
    AppendPointers(inode, inode2, geo.blockSize, no, {no}, {});
  }

  lemma {:induction false} OwnTwelve(v: View, inode: Inode, bs: nat)
    requires bs > 0 && OwnBlocks(v, inode, bs)
    ensures |inode.direct| == DIRECT && NBlocks(inode, bs) <= DIRECT
  {
  }

  lemma {:induction false} AppendRight(v: View, v1: View, v2: View, geo: Geometry, ino: nat, inode: Inode, inode1: Inode, inode2: Inode, pos: nat, d1: seq<byte>, d2: seq<byte>, no: nat)
    requires Sane(v, geo) && Sane(v1, geo) && OwnBlocks(v, inode, geo.blockSize) && Filled(v, v1, geo, inode, inode1, pos, d1)
    requires ino in v.table && v.table[ino] == inode && NBlocks(inode, geo.blockSize) < DIRECT && 0 < |d2| < geo.blockSize
    requires PutsBehind(v1, v2, geo, ino, inode1, inode2, NBlocks(inode, geo.blockSize), no, d2)
    ensures WritesRight(v, v2, geo, ino, inode, inode2, pos, d1 + d2, {no})
  {
    assert v2.blocks.free == v.blocks.free - {no} && no in v.blocks.free && pos <= inode.size;
    hide Sane, Filled, OwnBlocks, PutsBehind, FileBytes, Patched, Changes, NBlocks;
    AppendBytes(v, v1, v2, geo, ino, inode, inode1, inode2, pos, d1, d2, no);
    AppendChanges(v, v1, v2, geo, ino, inode, inode1, inode2, pos, d1, d2, no);
  }

  /** A file that fills its blocks, about to be appended to. */
  lemma {:induction false} FilledAlready(v: View, geo: Geometry, inode: Inode)
    requires geo.blockSize > 0 && Rem(inode.size, geo.blockSize) == 0
    ensures Filled(v, v, geo, inode, inode, inode.size, [])
    ensures Quot(inode.size, geo.blockSize) == NBlocks(inode, geo.blockSize)
  {
    var bs := geo.blockSize;
    DivSplit(inode.size, bs);
    CeilUnique(inode.size, Quot(inode.size, bs), bs);
    var f := FileBytes(v.data, inode, bs);
    assert Patched(f, inode.size, []) == f;
  }

  /** The last block was filled up. */
  lemma {:induction false} FilledNow(v: View, v1: View, geo: Geometry, inode: Inode, pos: nat, d: seq<byte>)
    requires Sane(v, geo) && OwnBlocks(v, inode, geo.blockSize) && pos <= inode.size && Rem(inode.size, geo.blockSize) != 0
    requires Quot(pos, geo.blockSize) == Quot(inode.size, geo.blockSize) && |d| == geo.blockSize - Rem(pos, geo.blockSize)
    requires pos + |d| < U32_LIMIT && v1 == v.(data := Inside(v, inode, geo.blockSize, pos, d))
    ensures Filled(v, v1, geo, inode, inode.(size := Max(pos + |d|, inode.size)), pos, d)
    ensures Quot(pos, geo.blockSize) + 1 == NBlocks(inode, geo.blockSize)
  {
    var bs, k := geo.blockSize, Quot(pos, geo.blockSize);
    InsideFrame(v, geo, inode, pos, d);
    PosInside(inode, bs, pos);
    DivSplit(pos, bs);
    DivSplit(inode.size, bs);
    assert Times(k + 1, bs) == bs + Times(k, bs);
    hide Sane, OwnBlocks, FileBytes, Patched, Inside, BlockSet;
  }

  lemma {:induction false} NothingRight(v: View, geo: Geometry, ino: nat, inode: Inode, pos: nat)
    requires Sane(v, geo) && OwnBlocks(v, inode, geo.blockSize) && ino in v.table && v.table[ino] == inode && pos <= inode.size
    ensures WritesRight(v, v, geo, ino, inode, inode, pos, [], {})
  {
    var f := FileBytes(v.data, inode, geo.blockSize);
    assert Patched(f, pos, []) == f;
    assert v.table[ino := inode] == v.table && v.blocks.free - {} + {} == v.blocks.free;
    WriteBecomes(v, geo, v.table, v.data);
    hide Moved, BlockSet;
    forall k | 0 <= k < Span(inode, geo.blockSize) ensures PointerOk(inode, inode, geo.blockSize, {}, {}, k) {
    }
    forall b | b in v.data ensures |v.data[b]| == geo.blockSize {
      DataInRange(v, geo, b);
    }
  }

  /** can_write: the unused bytes of the last block. */
  lemma {:induction false} CanWrite(inode: Inode, bs: nat)
    requires bs > 0
    ensures inode.size <= Times(NBlocks(inode, bs), bs) < inode.size + bs
    ensures inode.size == Times(NBlocks(inode, bs), bs) <==> Rem(inode.size, bs) == 0
  {
    CeilBounds(inode.size, bs);
    DivSplit(inode.size, bs);
    if Rem(inode.size, bs) == 0 {
      CeilUnique(inode.size, Quot(inode.size, bs), bs);
    } else {
      PosInside(inode, bs, inode.size);
      assert Times(Quot(inode.size, bs) + 1, bs) == bs + Times(Quot(inode.size, bs), bs);
    }
  }

  /** The view once the first part of a write is done. */
  ghost function HalfView(v: View, inode: Inode, bs: nat, pos: nat, d: seq<byte>): View
    requires bs > 0
  {
    var fill := Reached(inode, pos, |d|, bs);
    if fill == 0 then v else v.(data := Inside(v, inode, bs, pos, d[..fill]))
  }

  /** What the first part leaves: the view, and the size in memory. */
  ghost predicate HalfWritten(v: View, v1: View, bs: nat, inode: Inode, inode1: Inode, pos: nat, d: seq<byte>)
    requires bs > 0
  {
    && v1 == HalfView(v, inode, bs, pos, d)
    && inode1 == inode.(size := inode1.size) && inode1.size == Max(pos + Reached(inode, pos, |d|, bs), inode.size)
  }

  /** What a write did, whatever the inode in memory was: as many bytes as the block at pos
      could take went there; the rest went into a new block, with which the inode was
      written; without space for that only the size in memory grew. */
  ghost predicate DidWrite(v: View, v': View, geo: Geometry, ino: nat, inode: Inode, inode': Inode, pos: nat, pos': nat, d: seq<byte>, taken: set<nat>, res: int)
    requires geo.blockSize > 0
  {
    var bs, fill := geo.blockSize, Reached(inode, pos, |d|, geo.blockSize);
    var v1 := HalfView(v, inode, bs, pos, d);
    && Max(pos + fill, inode.size) < U32_LIMIT
    && var inode1 := inode.(size := Max(pos + fill, inode.size));
       if fill == |d| then
         && res == fill && pos' == pos + fill && taken == {} && inode' == inode1
         && v' == if fill > 0 then v1.(table := v1.table[ino := inode1]) else v1
       else if v.blocks.free == {} then
         && res == fill && pos' == pos + fill && taken == {} && v' == v1 && inode1.size + (|d| - fill) < U32_LIMIT
         && inode' == inode1.(size := inode1.size + (|d| - fill))
       else
         && res == |d| && pos' == pos + |d|
         && exists no :: taken == {no} && PutsBehind(v1, v', geo, ino, inode1, inode', NextIndex(inode.size, pos, bs), no, d[fill..])
  }

  // ---- a write of a file whose inode is on the device --------------------------------------

  /** The inode in memory is the one on the device and the file owns its blocks. */
  ghost predicate Settled(v: View, ino: nat, inode: Inode, bs: nat)
    requires bs > 0
  {
    ino in v.table && v.table[ino] == inode && OwnBlocks(v, inode, bs)
  }

  lemma {:induction false} SettledMeans(v: View, i: nat, inode: Inode, bs: nat)
    requires bs > 0 && Settled(v, i, inode, bs)
    ensures OwnBlocks(v, inode, bs) && i in v.table && v.table[i] == inode
  {
    hide OwnBlocks;
  }

  lemma {:induction false} SettledReach(v: View, geo: Geometry, inode: Inode, pos: nat, n: nat)
    requires Sane(v, geo) && OwnBlocks(v, inode, geo.blockSize) && pos <= inode.size
    ensures Reached(inode, pos, n, geo.blockSize) == Fills(inode.size, pos, n, geo.blockSize)
    ensures Writable(inode.size, pos, n, geo.blockSize) ==> Carried(v.data, inode, pos, n, geo.blockSize)
  {
    var bs := geo.blockSize;
    if Rem(inode.size, bs) != 0 {
      PosInside(inode, bs, pos);
      DataInRange(v, geo, inode.direct[Quot(pos, bs)]);
    }
  }

  /** The write ended in the first part. */
  lemma {:induction false} HalfIsAll(v: View, v1: View, geo: Geometry, ino: nat, inode: Inode, inode1: Inode, pos: nat, d: seq<byte>)
    requires Sane(v, geo) && Settled(v, ino, inode, geo.blockSize) && pos <= inode.size
    requires HalfWritten(v, v1, geo.blockSize, inode, inode1, pos, d) && |d| == Reached(inode, pos, |d|, geo.blockSize)
    requires pos + |d| < U32_LIMIT
    ensures WritesRight(v, if d == [] then v1 else v1.(table := v1.table[ino := inode1]), geo, ino, inode, inode1, pos, d, {})
    ensures d == [] ==> inode1 == inode && v1 == v
  {
    if d == [] {
      NothingRight(v, geo, ino, inode, pos);
      assert inode1 == inode;
    } else {
      assert d[..|d|] == d;
      PatchRight(v, v1.(table := v1.table[ino := inode1]), geo, ino, inode, pos, d);
    }
  }

  lemma {:induction false} HalfSane(v: View, v1: View, geo: Geometry, inode: Inode, inode1: Inode, pos: nat, d: seq<byte>)
    requires Sane(v, geo) && OwnBlocks(v, inode, geo.blockSize) && pos <= inode.size && pos + |d| < U32_LIMIT
    requires HalfWritten(v, v1, geo.blockSize, inode, inode1, pos, d)
    ensures Sane(v1, geo) && v1.blocks == v.blocks && v1.table == v.table
  {
    var fill := Reached(inode, pos, |d|, geo.blockSize);
    if fill > 0 {
      InsideFrame(v, geo, inode, pos, d[..fill]);
    }
  }

  /** The second part added the rest. */
  lemma {:induction false} HalfThenBehind(v: View, v1: View, v2: View, geo: Geometry, ino: nat, inode: Inode, inode1: Inode, inode2: Inode, pos: nat, d: seq<byte>, no: nat)
    requires Sane(v, geo) && Sane(v1, geo) && Settled(v, ino, inode, geo.blockSize)
    requires pos <= inode.size && pos + |d| < U32_LIMIT && HalfWritten(v, v1, geo.blockSize, inode, inode1, pos, d)
    requires var fill := Reached(inode, pos, |d|, geo.blockSize);
             && fill < |d| < fill + geo.blockSize && fill == Fills(inode.size, pos, |d|, geo.blockSize) && WriteSafe(inode.size, pos, |d|, geo.blockSize)
             && NextIndex(inode.size, pos, geo.blockSize) < DIRECT
             && PutsBehind(v1, v2, geo, ino, inode1, inode2, NextIndex(inode.size, pos, geo.blockSize), no, d[fill..])
    ensures WritesRight(v, v2, geo, ino, inode, inode2, pos, d, {no})
  {
    var bs := geo.blockSize;
    var fill := Reached(inode, pos, |d|, bs);
    assert d[..fill] + d[fill..] == d && |d[fill..]| < bs;
    hide Sane, Filled, OwnBlocks, PutsBehind, WritesRight, HalfWritten, Reached, Fills, WriteSafe, NBlocks;
    HalfFilled(v, v1, geo, inode, inode1, pos, d);
    AppendRight(v, v1, v2, geo, ino, inode, inode1, inode2, pos, d[..fill], d[fill..], no);
  }

  /** A supported write that needs more than the block at pos has filled the file's last
      block up. */
  lemma {:induction false} HalfFilled(v: View, v1: View, geo: Geometry, inode: Inode, inode1: Inode, pos: nat, d: seq<byte>)
    requires Sane(v, geo) && OwnBlocks(v, inode, geo.blockSize) && pos <= inode.size && pos + |d| < U32_LIMIT
    requires HalfWritten(v, v1, geo.blockSize, inode, inode1, pos, d)
    requires var fill := Reached(inode, pos, |d|, geo.blockSize);
             fill < |d| && fill == Fills(inode.size, pos, |d|, geo.blockSize) && WriteSafe(inode.size, pos, |d|, geo.blockSize)
    ensures Filled(v, v1, geo, inode, inode1, pos, d[..Reached(inode, pos, |d|, geo.blockSize)])
    ensures NextIndex(inode.size, pos, geo.blockSize) == NBlocks(inode, geo.blockSize)
  {
    hide Sane, OwnBlocks, Filled, HalfView, HalfWritten, Reached, NBlocks, Inside;
    SizePositive(v, geo);
    var fill := Reached(inode, pos, |d|, geo.blockSize);
    HalfMeans(v, v1, geo.blockSize, inode, inode1, pos, d);
    SafeRest(inode, pos, |d|, geo.blockSize);
    if fill == 0 {
      assert d[..fill] == [];
      FilledAlready(v, geo, inode);
    } else {
      FilledNow(v, v1, geo, inode, pos, d[..fill]);
    }
  }

  lemma {:induction false} SizePositive(v: View, geo: Geometry)
    requires Sane(v, geo)
    ensures geo.blockSize > 0
  {
    hide DataFits, TableFits;
  }

  lemma {:induction false} HalfMeans(v: View, v1: View, bs: nat, inode: Inode, inode1: Inode, pos: nat, d: seq<byte>)
    requires bs > 0 && pos <= inode.size && HalfWritten(v, v1, bs, inode, inode1, pos, d)
    ensures var fill := Reached(inode, pos, |d|, bs);
            && inode1 == inode.(size := inode1.size) && inode1.size == Max(pos + fill, inode.size)
            && (fill == 0 ==> v1 == v && inode1 == inode)
            && (fill > 0 ==> v1 == v.(data := Inside(v, inode, bs, pos, d[..fill])))
  {
    hide Inside, Reached;
  }

  /** A supported write that is not done with the block at pos fills it to its end, or starts
      at the end of a file that fills its blocks. */
  lemma {:induction false} SafeRest(inode: Inode, pos: nat, n: nat, bs: nat)
    requires bs > 0 && pos <= inode.size && WriteSafe(inode.size, pos, n, bs) && Fills(inode.size, pos, n, bs) < n
    ensures var fill := Fills(inode.size, pos, n, bs);
            if Rem(inode.size, bs) == 0 then fill == 0 && pos == inode.size
            else 0 < fill == bs - Rem(pos, bs) && Quot(pos, bs) == Quot(inode.size, bs)
  {
  }

  /** How a write of a settled file came out. */
  ghost predicate Written(v: View, v': View, geo: Geometry, ino: nat, inode: Inode, inode': Inode, pos: nat, pos': nat, d: seq<byte>, taken: set<nat>, res: int)
    requires geo.blockSize > 0 && pos <= inode.size
  {
    var fill := Fills(inode.size, pos, |d|, geo.blockSize);
    && inode'.size == SizeAfter(inode.size, pos, |d|, geo.blockSize)
    && if fill == |d| || v.blocks.free != {} then
         // all of it: the inode is on the device, and if the write was of the kind the
         // driver supports the file says what it should
         && res == |d| && pos' == pos + |d| && ino in v'.table && v'.table[ino] == inode'
         && (WriteSafe(inode.size, pos, |d|, geo.blockSize) ==> WritesRight(v, v', geo, ino, inode, inode', pos, d, taken))
       else
         // no space for the rest: the first part is written, but the inode is not, and in
         // memory it has the size it would have had
         && res == fill && pos' == pos + fill && fill <= |d|
         && HalfWritten(v, v', geo.blockSize, inode, inode'.(size := Max(pos', inode.size)), pos, d)
  }

  lemma {:induction false} SettledWhole(v: View, v': View, geo: Geometry, ino: nat, inode: Inode, inode': Inode, pos: nat, pos': nat, d: seq<byte>, taken: set<nat>, res: int)
    requires geo.blockSize > 0 && Sane(v, geo) && Settled(v, ino, inode, geo.blockSize) && pos <= inode.size && Carried(v.data, inode, pos, |d|, geo.blockSize)
    requires DidWrite(v, v', geo, ino, inode, inode', pos, pos', d, taken, res)
    requires Reached(inode, pos, |d|, geo.blockSize) == |d|
    ensures Written(v, v', geo, ino, inode, inode', pos, pos', d, taken, res)
  {
    hide Sane, OwnBlocks, HalfView, Reached, WritesRight, WriteSafe, Fills, HalfWritten, Carried, CeilDiv, PutsBehind;
    var bs := geo.blockSize;
    var v1 := HalfView(v, inode, bs, pos, d);
    SettledReach(v, geo, inode, pos, |d|);
    ReachKnown(v.data, inode, pos, |d|, bs);
    HalfIs(v, bs, inode, pos, d);
    HalfIsAll(v, v1, geo, ino, inode, inode', pos, d);
  }

  lemma {:induction false} HalfIs(v: View, bs: nat, inode: Inode, pos: nat, d: seq<byte>)
    requires bs > 0 && Max(pos + Reached(inode, pos, |d|, bs), inode.size) < U32_LIMIT
    ensures HalfWritten(v, HalfView(v, inode, bs, pos, d), bs, inode, inode.(size := Max(pos + Reached(inode, pos, |d|, bs), inode.size)), pos, d)
  {
  }

  lemma {:induction false} SettledShort(v: View, v': View, geo: Geometry, ino: nat, inode: Inode, inode': Inode, pos: nat, pos': nat, d: seq<byte>, taken: set<nat>, res: int)
    requires geo.blockSize > 0 && Sane(v, geo) && Settled(v, ino, inode, geo.blockSize) && pos <= inode.size && Carried(v.data, inode, pos, |d|, geo.blockSize)
    requires DidWrite(v, v', geo, ino, inode, inode', pos, pos', d, taken, res)
    requires Reached(inode, pos, |d|, geo.blockSize) < |d| && v.blocks.free == {}
    ensures Written(v, v', geo, ino, inode, inode', pos, pos', d, taken, res)
  {
    hide Sane, OwnBlocks, HalfView, Reached, WritesRight, WriteSafe, Fills, PutsBehind, Carried;
    SettledReach(v, geo, inode, pos, |d|);
  }

  /** The block a write took for its second part. */
  lemma {:induction false} TakenNumber(v: View, v': View, geo: Geometry, i: nat, inode: Inode, inode': Inode, pos: nat, pos': nat, d: seq<byte>, taken: set<nat>, res: int)
    returns (no: nat, inode1: Inode)
    requires geo.blockSize > 0 && DidWrite(v, v', geo, i, inode, inode', pos, pos', d, taken, res)
    requires Reached(inode, pos, |d|, geo.blockSize) < |d| && v.blocks.free != {}
    ensures var fill := Reached(inode, pos, |d|, geo.blockSize);
            && inode1 == inode.(size := inode1.size) && inode1.size == Max(pos + fill, inode.size) && taken == {no}
            && PutsBehind(HalfView(v, inode, geo.blockSize, pos, d), v', geo, i, inode1, inode',
                          NextIndex(inode.size, pos, geo.blockSize), no, d[fill..])
  {
    hide HalfView, PutsBehind, Reached, NextIndex;
    var bs, fill := geo.blockSize, Reached(inode, pos, |d|, geo.blockSize);
    inode1 := inode.(size := Max(pos + fill, inode.size));
    no :| taken == {no} && PutsBehind(HalfView(v, inode, bs, pos, d), v', geo, i, inode1, inode', NextIndex(inode.size, pos, bs), no, d[fill..]);
  }

  /** The second part of a supported write. */
  lemma {:induction false} SafeMore(v: View, v': View, geo: Geometry, ino: nat, inode: Inode, inode1: Inode, inode': Inode, pos: nat, d: seq<byte>, no: nat)
    requires geo.blockSize > 0 && Sane(v, geo) && Settled(v, ino, inode, geo.blockSize) && pos <= inode.size && Carried(v.data, inode, pos, |d|, geo.blockSize)
    requires WriteSafe(inode.size, pos, |d|, geo.blockSize)
    requires var fill := Reached(inode, pos, |d|, geo.blockSize);
             && fill < |d| && inode1 == inode.(size := inode1.size) && inode1.size == Max(pos + fill, inode.size)
             && PutsBehind(HalfView(v, inode, geo.blockSize, pos, d), v', geo, ino, inode1, inode', NextIndex(inode.size, pos, geo.blockSize), no, d[fill..])
    ensures WritesRight(v, v', geo, ino, inode, inode', pos, d, {no})
  {
    hide Sane, OwnBlocks, HalfView, Reached, WritesRight, WriteSafe, Fills, HalfWritten, PutsBehind, NextIndex;
    var bs := geo.blockSize;
    SettledReach(v, geo, inode, pos, |d|);
    ReachKnown(v.data, inode, pos, |d|, bs);
    var v1 := HalfView(v, inode, bs, pos, d);
    HalfIs(v, bs, inode, pos, d);
    HalfSane(v, v1, geo, inode, inode1, pos, d);
    HalfThenBehind(v, v1, v', geo, ino, inode, inode1, inode', pos, d, no);
  }

  lemma {:induction false} MoreIsWritten(v: View, v': View, geo: Geometry, ino: nat, inode: Inode, inode1: Inode, inode': Inode, pos: nat, pos': nat, d: seq<byte>, taken: set<nat>, res: int, no: nat)
    requires geo.blockSize > 0 && pos <= inode.size && DidWrite(v, v', geo, ino, inode, inode', pos, pos', d, taken, res)
    requires Reached(inode, pos, |d|, geo.blockSize) == Fills(inode.size, pos, |d|, geo.blockSize) < |d| && v.blocks.free != {}
    requires inode1.size == Max(pos + Fills(inode.size, pos, |d|, geo.blockSize), inode.size) && taken == {no}
    requires PutsBehind(HalfView(v, inode, geo.blockSize, pos, d), v', geo, ino, inode1, inode', NextIndex(inode.size, pos, geo.blockSize), no,
                        d[Reached(inode, pos, |d|, geo.blockSize)..])
    requires WriteSafe(inode.size, pos, |d|, geo.blockSize) ==> WritesRight(v, v', geo, ino, inode, inode', pos, d, {no})
    ensures Written(v, v', geo, ino, inode, inode', pos, pos', d, taken, res)
  {
    hide HalfView, Reached, WritesRight, WriteSafe, Fills, HalfWritten, PutsBehind, NextIndex;
    BehindKnown(HalfView(v, inode, geo.blockSize, pos, d), v', geo, ino, inode1, inode', NextIndex(inode.size, pos, geo.blockSize), no,
                d[Reached(inode, pos, |d|, geo.blockSize)..]);
  }

  lemma {:induction false} SettledMore(v: View, v': View, geo: Geometry, ino: nat, inode: Inode, inode': Inode, pos: nat, pos': nat, d: seq<byte>, taken: set<nat>, res: int)
    requires geo.blockSize > 0 && Sane(v, geo) && Settled(v, ino, inode, geo.blockSize) && pos <= inode.size && Carried(v.data, inode, pos, |d|, geo.blockSize)
    requires DidWrite(v, v', geo, ino, inode, inode', pos, pos', d, taken, res)
    requires Reached(inode, pos, |d|, geo.blockSize) < |d| && v.blocks.free != {}
    ensures Written(v, v', geo, ino, inode, inode', pos, pos', d, taken, res)
  {
    hide *;
    SettledKnown(v, geo, ino, inode, pos, |d|);
    var no, inode1 := TakenNumber(v, v', geo, ino, inode, inode', pos, pos', d, taken, res);
    if WriteSafe(inode.size, pos, |d|, geo.blockSize) {
      SafeMore(v, v', geo, ino, inode, inode1, inode', pos, d, no);
    }
    MoreIsWritten(v, v', geo, ino, inode, inode1, inode', pos, pos', d, taken, res, no);
  }

  lemma {:induction false} SettledKnown(v: View, geo: Geometry, ino: nat, inode: Inode, pos: nat, n: nat)
    requires geo.blockSize > 0 && Sane(v, geo) && Settled(v, ino, inode, geo.blockSize) && pos <= inode.size
    ensures Reached(inode, pos, n, geo.blockSize) == Fills(inode.size, pos, n, geo.blockSize)
  {
    hide Sane, OwnBlocks, Reached, Fills;
    SettledReach(v, geo, inode, pos, n);
  }

  lemma {:induction false} SettledWrite(v: View, v': View, geo: Geometry, ino: nat, inode: Inode, inode': Inode, pos: nat, pos': nat, d: seq<byte>, taken: set<nat>, res: int)
    requires geo.blockSize > 0 && Sane(v, geo) && Settled(v, ino, inode, geo.blockSize) && pos <= inode.size && Carried(v.data, inode, pos, |d|, geo.blockSize)
    requires DidWrite(v, v', geo, ino, inode, inode', pos, pos', d, taken, res)
    ensures Written(v, v', geo, ino, inode, inode', pos, pos', d, taken, res)
  {
    hide *;
    if Reached(inode, pos, |d|, geo.blockSize) == |d| {
      SettledWhole(v, v', geo, ino, inode, inode', pos, pos', d, taken, res);
    } else if v.blocks.free == {} {
      SettledShort(v, v', geo, ino, inode, inode', pos, pos', d, taken, res);
    } else {
      SettledMore(v, v', geo, ino, inode, inode', pos, pos', d, taken, res);
    }
  }

  lemma {:induction false} BehindKnown(v1: View, v2: View, geo: Geometry, ino: nat, inode: Inode, inode': Inode, index: nat, no: nat, d: seq<byte>)
    requires PutsBehind(v1, v2, geo, ino, inode, inode', index, no, d)
    ensures inode'.size == inode.size + |d| && ino in v2.table && v2.table[ino] == inode'
  {
  }

  // ---- the method --------------------------------------------------------------------------

  lemma {:induction false} SpliceNothing(v: View, b: nat, off: nat)
    requires b in v.data && off <= |v.data[b]|
    ensures v.(data := v.data[b := Splice(v.data[b], off, [])]) == v
  {
    assert Splice(v.data[b], off, []) == v.data[b];
    assert v.data[b := v.data[b]] == v.data;
  }

  lemma {:induction false} PointerAtPos(v: View, geo: Geometry, inode: Inode, k: nat)
    requires Sane(v, geo) && k < DIRECT == |inode.direct| && (inode.direct[k] == 0 || inode.direct[k] as nat in v.data)
    ensures PointersOk(v.data, inode, geo.blockSize, k) && FoundBlock(v.data, inode, geo.blockSize, k) == inode.direct[k]
    ensures inode.direct[k] as nat in v.data ==> |v.data[inode.direct[k] as nat]| == geo.blockSize && inode.direct[k] != 0
  {
  }

  /** The first part of write: the file's last block has unused bytes, so the write starts
      in a block that is there, if it can be read. (The unused bytes are fewer than a block,
      so one round does it.) `block` keeps what was read. */
  method WriteInside(fs: Volume, of: Ofile, block: array<byte>, d: seq<byte>) returns (written: nat)
    requires fs.Valid() && fs.geo.blockSize > 0 && block.Length == fs.geo.blockSize
    requires of.pos <= of.vnode.inode.size && Rem(of.vnode.inode.size, fs.geo.blockSize) != 0
    requires Carried(fs.view.data, of.vnode.inode, of.pos, |d|, fs.geo.blockSize)
    modifies fs, of, of.vnode, block
    ensures fs.Valid() && written == Reached(old(of.vnode.inode), old(of.pos), |d|, fs.geo.blockSize)
    ensures of.pos == old(of.pos) + written
    ensures HalfWritten(old(fs.view), fs.view, fs.geo.blockSize, old(of.vnode.inode), of.vnode.inode, old(of.pos), d)
  {
    hide Rep, PointersOk, FoundBlock, Splice, Sane;
    ghost var v, inode := fs.view, of.vnode.inode;
    NoBlockZero(fs);
    VolumeSane(fs);
    var k, off := Quot(of.pos, fs.geo.blockSize), Rem(of.pos, fs.geo.blockSize);
    var needWrite := Min(|d|, fs.geo.blockSize - off);
    PointerAtPos(v, fs.geo, inode, k);
    written := 0;
    var read := ReadInodeBlock(fs, of.vnode.inode, k, block);
    if read >= 0 {
      SpliceNothing(v, inode.direct[k] as nat, off);
      DirBlocks.PutBytes(block, off, d[..needWrite]);
      var _ := WriteInodeBlock(fs, of.vnode.inode, k, block);
      written := needWrite;
      of.pos := of.pos + needWrite;
      assert d[..0] == [];
    }
    of.vnode.inode := of.vnode.inode.(size := Max(of.pos, of.vnode.inode.size));
  }

  /** ext2_vnode_write. The inode in memory need not be the one on the device. */
  method Write(fs: Volume, of: Ofile, d: seq<byte>) returns (res: int, ghost taken: set<nat>)
    requires fs.Valid() && fs.geo.blockSize > 0
    requires of.vnode.ino as nat in fs.view.table && InodeOk(of.vnode.inode, fs.geo.inodeSize)
    requires of.pos <= of.vnode.inode.size ==> Carried(fs.view.data, of.vnode.inode, of.pos, |d|, fs.geo.blockSize)
    modifies fs, of, of.vnode
    ensures fs.Valid()
    ensures old(of.pos) > old(of.vnode.inode).size ==>
              res == ESPIPE && fs.view == old(fs.view) && of.vnode.inode == old(of.vnode.inode) && of.pos == old(of.pos)
    ensures old(of.pos) <= old(of.vnode.inode).size ==>
              DidWrite(old(fs.view), fs.view, fs.geo, of.vnode.ino as nat, old(of.vnode.inode), of.vnode.inode, old(of.pos), of.pos, d, taken, res)
    ensures old(of.pos) <= old(of.vnode.inode).size && Settled(old(fs.view), of.vnode.ino as nat, old(of.vnode.inode), fs.geo.blockSize) ==>
              Written(old(fs.view), fs.view, fs.geo, of.vnode.ino as nat, old(of.vnode.inode), of.vnode.inode, old(of.pos), of.pos, d, taken, res)
  {
    hide Rep, Fills, NBlocks, Splice, HalfView, WritesRight, PutsBehind, Sane, InodeOk, WriteSafe, NextIndex, Inside, Reached, Written, Settled,
      Times, Quot, Rem, CeilDiv;
    taken := {};
    if of.pos > of.vnode.inode.size {
      return ESPIPE, taken;
    }
    var bs := fs.geo.blockSize;
    ghost var v, inode, pos := fs.view, of.vnode.inode, of.pos;
    VolumeSane(fs);
    CanWrite(inode, bs);
    ReachKnown(v.data, inode, pos, |d|, bs);
    var canWrite := Times(NBlocks(of.vnode.inode, bs), bs) - of.vnode.inode.size;
    var current := Quot(of.pos, bs);
    var written := 0;
    var block := new byte[bs];
    if canWrite != 0 {
      written := WriteInside(fs, of, block, d);
      current := current + 1;
    } else {
      HalfNothing(v, bs, inode, pos, d);
    }
    ghost var v1, inode1 := fs.view, of.vnode.inode;
    VolumeSane(fs);
    HalfKnown(v, v1, fs.geo, inode, inode1, pos, d);
    if written < |d| {
      ghost var no;
      IndexIs(inode.size, pos, bs, current);
      res, no := PutBehind(fs, of, block, current, d[written..]);
      if res == 0 {
        taken := {no};
        written := |d|;
      }
    } else {
      if written > 0 {
        SameInodeOk(inode, of.vnode.inode, fs.geo.inodeSize);
        fs.WriteInode(of.vnode.inode, of.vnode.ino);
      }
    }
    res := written;
    if Settled(v, of.vnode.ino as nat, inode, bs) {
      SettledWrite(v, fs.view, fs.geo, of.vnode.ino as nat, inode, of.vnode.inode, pos, of.pos, d, taken, res);
    }
  }

  lemma {:induction false} ReachKnown(data: Data, inode: Inode, pos: nat, n: nat, bs: nat)
    requires bs > 0 && pos <= inode.size && Carried(data, inode, pos, n, bs)
    ensures var fill := Reached(inode, pos, n, bs);
            && fill <= n < fill + bs && pos + n < U32_LIMIT && inode.size + n < U32_LIMIT && |inode.direct| == DIRECT
            && Max(pos + fill, inode.size) + (n - fill) < U32_LIMIT
            && (n > fill ==> NextIndex(inode.size, pos, bs) < DIRECT)
  {
  }

  lemma {:induction false} HalfNothing(v: View, bs: nat, inode: Inode, pos: nat, d: seq<byte>)
    requires bs > 0 && Rem(inode.size, bs) == 0 && pos <= inode.size
    ensures HalfWritten(v, v, bs, inode, inode, pos, d) && Reached(inode, pos, |d|, bs) == 0
  {
  }

  lemma {:induction false} HalfKnown(v: View, v1: View, geo: Geometry, inode: Inode, inode1: Inode, pos: nat, d: seq<byte>)
    requires geo.blockSize > 0 && HalfWritten(v, v1, geo.blockSize, inode, inode1, pos, d) && pos <= inode.size
    ensures inode1 == inode.(size := inode1.size) && v1.table == v.table && v1.blocks == v.blocks
    ensures InodeOk(inode, geo.inodeSize) ==> InodeOk(inode1, geo.inodeSize)
    ensures inode1.size == Max(pos + Reached(inode, pos, |d|, geo.blockSize), inode.size)
    ensures v1 == HalfView(v, inode, geo.blockSize, pos, d)
  {
  }

  lemma {:induction false} IndexIs(size: nat, pos: nat, bs: nat, current: nat)
    requires bs > 0 && current == if Rem(size, bs) == 0 then Quot(pos, bs) else Quot(pos, bs) + 1
    ensures NextIndex(size, pos, bs) == current
  {
  }
}
