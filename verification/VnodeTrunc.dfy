/** truncate. */
module VnodeTrunc {
  import opened Arith
  import opened Bytes
  import opened Layout
  import opened Inodes
  import opened State
  import opened Volumes
  import opened Effects
  import opened Files
  import opened Fsck
  import opened Vnodes
  import opened VnodeDirs
  import opened VnodeFind
  import opened VnodeUnlink
  import opened VnodeWrite

  /** 32-bit subtraction. */
  function Minus32(a: u32, b: u32): u32 {
    if a >= b then a - b else a + U32_LIMIT - b
  }

  /** From v, blocks m to i of inode x were given back, first one first, and the inode
      written each time with some size. */
  ghost predicate FreedTo(v: View, v': View, geo: Geometry, x: nat, inode: Inode, inode': Inode, m: nat, i: nat)
    requires m <= i <= |inode.direct|
  {
    && inode' == inode.(size := inode'.size, direct := ZeroedFrom(inode.direct, m, i))
    && Becomes(v, v', geo, v.blocks.free + BlocksFrom(inode, m, i), v.inodes.free,
               if i == m then v.table else v.table[x := inode'], v.data)
  }

  lemma {:induction false} FreedToNone(v: View, geo: Geometry, x: nat, inode: Inode, m: nat)
    requires Sane(v, geo) && m <= |inode.direct|
    ensures FreedTo(v, v, geo, x, inode, inode, m, m)
  {
    assert ZeroedFrom(inode.direct, m, m) == inode.direct;
    assert v.blocks.free + BlocksFrom(inode, m, m) == v.blocks.free;
  }

  lemma {:induction false} FreedToReady(v: View, v1: View, geo: Geometry, x: nat, inode: Inode, i1: Inode, m: nat, i: nat)
    requires geo.blockSize > 0 && m <= i < |inode.direct| && FreedTo(v, v1, geo, x, inode, i1, m, i)
    requires OwnBlocks(v, inode, geo.blockSize) && i < NBlocks(inode, geo.blockSize) && x in v.table && InodeOk(inode, geo.inodeSize)
    ensures |i1.direct| == DIRECT && i1.direct[i] as nat in v1.data && i1.direct[i] !in v1.blocks.free
    ensures x in v1.table && InodeOk(i1, geo.inodeSize)
  {
  }

  lemma {:induction false} FreedToNext(v: View, v1: View, v2: View, geo: Geometry, x: nat, inode: Inode, i1: Inode, i2: Inode, m: nat, i: nat, size: u32)
    requires m <= i < |inode.direct| && FreedTo(v, v1, geo, x, inode, i1, m, i)
    requires BlockGiven(v1, v2, geo, x, i1.(size := size), i2, i)
    ensures FreedTo(v, v2, geo, x, inode, i2, m, i + 1)
  {
    assert i2.direct == ZeroedFrom(inode.direct, m, i + 1);
    assert i1.direct[i] == inode.direct[i];
    assert BlocksFrom(inode, m, i + 1) == BlocksFrom(inode, m, i) + {inode.direct[i] as nat};
    assert v.blocks.free + BlocksFrom(inode, m, i + 1) == v.blocks.free + BlocksFrom(inode, m, i) + {inode.direct[i] as nat};
    assert v2.table == v.table[x := i2];
  }

  /** One round of truncate's loop; the size may wrap below zero on the way. */
  method FreeNext(fs: Volume, vn: Vnode, m: nat, i: nat, ghost v: View, ghost inode: Inode)
    requires fs.Valid() && fs.geo.blockSize > 0 && m <= i < |inode.direct|
    requires OwnBlocks(v, inode, fs.geo.blockSize) && i < NBlocks(inode, fs.geo.blockSize)
    requires vn.ino as nat in v.table && InodeOk(inode, fs.geo.inodeSize)
    requires FreedTo(v, fs.view, fs.geo, vn.ino as nat, inode, vn.inode, m, i)
    modifies fs, vn
    ensures fs.Valid() && FreedTo(v, fs.view, fs.geo, vn.ino as nat, inode, vn.inode, m, i + 1)
  {
    hide OwnBlocks, FreedTo, Sane, InodeOk, BlockGiven, Rep, Becomes;
    GeometryBounds(fs);
    OwnKnown(v, inode, fs.geo.blockSize);
    FreedToReady(v, fs.view, fs.geo, vn.ino as nat, inode, vn.inode, m, i);
    ghost var v1, i1 := fs.view, vn.inode;
    vn.inode := vn.inode.(size := Minus32(vn.inode.size, fs.geo.blockSize));
    SameInodeOk(i1, vn.inode, fs.geo.inodeSize);
    ghost var size := vn.inode.size;
    var _ := FreeInodeBlock(fs, vn, i);
    FreedToNext(v, v1, fs.view, fs.geo, vn.ino as nat, inode, i1, vn.inode, m, i, size);
  }

  /** The file became its first `length` bytes: blocks m and up were given back, the others
      and their pointers stay. */
  ghost predicate Truncates(v: View, v': View, geo: Geometry, ino: nat, inode: Inode, inode': Inode, length: nat)
    requires geo.blockSize > 0
  {
    var m, n := CeilDiv(length, geo.blockSize), NBlocks(inode, geo.blockSize);
    && m <= n <= |inode.direct| && length <= inode.size
    && inode'.size == length && inode'.direct == ZeroedFrom(inode.direct, m, n)
    && v'.table == v.table[ino := inode'] && v'.data == v.data
    && FileBytes(v'.data, inode', geo.blockSize) == FileBytes(v.data, inode, geo.blockSize)[..length]
    && Changes(v, v', geo, ino, inode', v'.data, {}, BlocksFrom(inode, m, n))
    && |v'.blocks.free| == |v.blocks.free| + (n - m)
  }

  lemma {:induction false} CountOne(free: set<nat>, given: set<nat>, b: nat)
    requires b !in free && b !in given
    ensures |free + (given + {b})| == |free + given| + 1
  {
    assert free + (given + {b}) == (free + given) + {b};
  }

  lemma {:induction false} NextBlock(v: View, inode: Inode, bs: nat, m: nat, i: nat)
    requires bs > 0 && OwnBlocks(v, inode, bs) && m <= i < NBlocks(inode, bs) <= |inode.direct|
    ensures BlocksFrom(inode, m, i + 1) == BlocksFrom(inode, m, i) + {inode.direct[i] as nat}
    ensures inode.direct[i] !in v.blocks.free && inode.direct[i] as nat !in BlocksFrom(inode, m, i)
  {
  }

  lemma {:induction false} NoBlocks(free: set<nat>, inode: Inode, m: nat)
    requires m <= |inode.direct|
    ensures free + BlocksFrom(inode, m, m) == free
  {
  }

  lemma {:induction false} CountBlocks(v: View, inode: Inode, bs: nat, m: nat, i: nat)
    requires bs > 0 && OwnBlocks(v, inode, bs) && m <= i <= NBlocks(inode, bs) <= |inode.direct|
    ensures |v.blocks.free + BlocksFrom(inode, m, i)| == |v.blocks.free| + (i - m)
  {
    hide *;
    if m < i {
      CountBlocks(v, inode, bs, m, i - 1);
      NextBlock(v, inode, bs, m, i - 1);
      CountOne(v.blocks.free, BlocksFrom(inode, m, i - 1), inode.direct[i - 1] as nat);
    } else {
      NoBlocks(v.blocks.free, inode, m);
    }
  }

  lemma {:induction false} TruncateBytes(v: View, geo: Geometry, inode: Inode, inode': Inode, length: nat)
    requires Sane(v, geo) && OwnBlocks(v, inode, geo.blockSize) && length <= inode.size && inode'.size == length
    requires NBlocks(inode, geo.blockSize) <= |inode.direct|
    requires inode'.direct == ZeroedFrom(inode.direct, CeilDiv(length, geo.blockSize), NBlocks(inode, geo.blockSize))
    ensures FileBytes(v.data, inode', geo.blockSize) == FileBytes(v.data, inode, geo.blockSize)[..length]
  {
    OwnShape(v, geo, inode);
    PrefixBytes(v.data, inode, inode', geo.blockSize);
  }

  lemma {:induction false} TruncateRight(v: View, v': View, geo: Geometry, ino: nat, inode: Inode, inode': Inode, length: nat)
    requires Sane(v, geo) && OwnBlocks(v, inode, geo.blockSize) && ino in v.table && v.table[ino] == inode
    requires CeilDiv(length, geo.blockSize) < NBlocks(inode, geo.blockSize) <= |inode.direct| && InodeOk(inode', geo.inodeSize)
    requires inode' == inode.(size := inode'.size, direct := ZeroedFrom(inode.direct, CeilDiv(length, geo.blockSize), NBlocks(inode, geo.blockSize)))
    requires inode'.size == length
    requires Becomes(v, v', geo, v.blocks.free + BlocksFrom(inode, CeilDiv(length, geo.blockSize), NBlocks(inode, geo.blockSize)),
                     v.inodes.free, v.table[ino := inode'], v.data)
    ensures Truncates(v, v', geo, ino, inode, inode', length)
  {
    var bs, m, n := geo.blockSize, CeilDiv(length, geo.blockSize), NBlocks(inode, geo.blockSize);
    if length > inode.size {
      CeilMono(inode.size, length, bs);
      assert false;
    }
    CountBlocks(v, inode, bs, m, n);
    TruncateBytes(v, geo, inode, inode', length);
    TruncateChanges(v, v', geo, ino, inode, inode');
  }

  lemma {:induction false} TruncateChanges(v: View, v': View, geo: Geometry, ino: nat, inode: Inode, inode': Inode)
    requires Sane(v, geo) && OwnBlocks(v, inode, geo.blockSize) && ino in v.table && v.table[ino] == inode
    requires NBlocks(inode', geo.blockSize) < NBlocks(inode, geo.blockSize) <= |inode.direct| && InodeOk(inode', geo.inodeSize)
    requires inode' == inode.(size := inode'.size, direct := ZeroedFrom(inode.direct, NBlocks(inode', geo.blockSize), NBlocks(inode, geo.blockSize)))
    requires Becomes(v, v', geo, v.blocks.free + BlocksFrom(inode, NBlocks(inode', geo.blockSize), NBlocks(inode, geo.blockSize)),
                     v.inodes.free, v.table[ino := inode'], v.data)
    ensures Changes(v, v', geo, ino, inode', v'.data, {}, BlocksFrom(inode, NBlocks(inode', geo.blockSize), NBlocks(inode, geo.blockSize)))
  {
    var bs, m, n := geo.blockSize, NBlocks(inode', geo.blockSize), NBlocks(inode, geo.blockSize);
    var given := BlocksFrom(inode, m, n);
    assert v.blocks.free - {} + given == v.blocks.free + given;
    assert given <= BlockSet(inode, bs);
    forall k | 0 <= k < Span(inode', bs) ensures PointerOk(inode, inode', bs, {}, given, k) {
      assert k < m;
    }
    forall b | b in v.data ensures |v.data[b]| == bs {
      DataInRange(v, geo, b);
    }
  }

  // ---- the number of blocks a length asks for ----------------------------------------------

  /** (length + block_size - 1) / block_size on 64 bits, where the sum may wrap. */
  function BlocksFor(length: nat, bs: nat): nat
    requires bs > 0
  {
    Quot((length + bs - 1) % SIZE_T, bs)
  }

  lemma {:induction false} BlocksForIs(length: nat, bs: nat)
    requires 0 < bs < U32_LIMIT && length < SIZE_T
    ensures BlocksFor(length, bs) == if length + bs <= SIZE_T then CeilDiv(length, bs) else 0
  {
    var sum := length + bs - 1;
    if length + bs <= SIZE_T {
      assert sum % SIZE_T == sum;
    } else {
      assert sum % SIZE_T == sum - SIZE_T < bs;
    }
  }

  /** The blocks from BlocksFor(length) on were given back, and the inode has the low half of
      the length as its size. */
  ghost predicate CutTo(v: View, v': View, geo: Geometry, ino: nat, inode: Inode, inode': Inode, length: nat)
    requires geo.blockSize > 0
  {
    var m, n := BlocksFor(length, geo.blockSize), NBlocks(inode, geo.blockSize);
    && m < n <= |inode.direct| && InodeOk(inode', geo.inodeSize)
    && inode' == inode.(size := length % U32_LIMIT, direct := ZeroedFrom(inode.direct, m, n))
    && Becomes(v, v', geo, v.blocks.free + BlocksFrom(inode, m, n), v.inodes.free, v.table[ino := inode'], v.data)
  }

  /** What truncate did, whatever the length. */
  ghost predicate DidTruncate(v: View, v': View, geo: Geometry, ino: nat, inode: Inode, inode': Inode, length: nat, res: int)
    requires geo.blockSize > 0
  {
    && (res == 0 <==> length == inode.size || BlocksFor(length, geo.blockSize) < NBlocks(inode, geo.blockSize))
    && (res != 0 ==> res == EINVAL)
    && (res != 0 || length == inode.size ==> v' == v && inode' == inode)
    && (res == 0 && length != inode.size ==> CutTo(v, v', geo, ino, inode, inode', length))
  }

  /** What truncate should do: nothing if the length is as it was, a cut if it takes fewer
      blocks, and -EINVAL otherwise. */
  ghost predicate TruncatesAsAsked(v: View, v': View, geo: Geometry, ino: nat, inode: Inode, inode': Inode, length: nat, res: int)
    requires geo.blockSize > 0
  {
    && (res == 0 <==> length == inode.size || CeilDiv(length, geo.blockSize) < NBlocks(inode, geo.blockSize))
    && (res != 0 ==> res == EINVAL)
    && (res != 0 || length == inode.size ==> v' == v && inode' == inode)
    && (res == 0 && length != inode.size ==> Truncates(v, v', geo, ino, inode, inode', length))
  }

  /** Within a block of 2^64 the sum wraps, and instead of being refused the call takes all of
      the file's blocks. */
  predicate Fits(inode: Inode, bs: nat, length: nat)
    requires bs > 0
  {
    length + bs <= SIZE_T || length == inode.size || NBlocks(inode, bs) == 0
  }

  /** truncate does what it should if and only if the length fits. */
  lemma {:induction false} TruncateExact(v: View, v': View, geo: Geometry, ino: nat, inode: Inode, inode': Inode, length: nat, res: int)
    requires Sane(v, geo) && OwnBlocks(v, inode, geo.blockSize) && ino in v.table && v.table[ino] == inode
    requires 0 < geo.blockSize < U32_LIMIT && length < SIZE_T && DidTruncate(v, v', geo, ino, inode, inode', length, res)
    ensures TruncatesAsAsked(v, v', geo, ino, inode, inode', length, res) <==> Fits(inode, geo.blockSize, length)
  {
    hide Sane, OwnBlocks, Truncates, CutTo, BlocksFor, CeilDiv, NBlocks;
    var bs := geo.blockSize;
    BlocksForIs(length, bs);
    if length + bs <= SIZE_T {
      if CeilDiv(length, bs) < NBlocks(inode, bs) && length != inode.size {
        CutIsRight(v, v', geo, ino, inode, inode', length);
      }
    } else {
      LongerAsksMore(inode, bs, length);
    }
  }

  lemma {:induction false} LongerAsksMore(inode: Inode, bs: nat, length: nat)
    requires bs > 0 && inode.size <= length
    ensures NBlocks(inode, bs) <= CeilDiv(length, bs)
  {
    CeilMono(inode.size, length, bs);
  }

  lemma {:induction false} CutIsRight(v: View, v': View, geo: Geometry, ino: nat, inode: Inode, inode': Inode, length: nat)
    requires Sane(v, geo) && OwnBlocks(v, inode, geo.blockSize) && ino in v.table && v.table[ino] == inode
    requires CutTo(v, v', geo, ino, inode, inode', length) && BlocksFor(length, geo.blockSize) == CeilDiv(length, geo.blockSize)
    ensures Truncates(v, v', geo, ino, inode, inode', length)
  {
    hide Sane, OwnBlocks, Truncates, BlocksFor, Becomes, InodeOk;
    LengthFits(inode, geo.blockSize, length);
    assert length % U32_LIMIT == length;
    TruncateRight(v, v', geo, ino, inode, inode', length);
  }

  /** ext2_vnode_truncate, for every 64-bit length. */
  method Truncate(fs: Volume, of: Ofile, length: nat) returns (res: int)
    requires fs.Valid() && fs.geo.blockSize > 0 && of.vnode.Synced(fs) && OwnBlocks(fs.view, of.vnode.inode, fs.geo.blockSize)
    requires length < SIZE_T
    modifies fs, of.vnode
    ensures fs.Valid() && of.vnode.Synced(fs)
    ensures DidTruncate(old(fs.view), fs.view, fs.geo, of.vnode.ino as nat, old(of.vnode.inode), of.vnode.inode, length, res)
    ensures TruncatesAsAsked(old(fs.view), fs.view, fs.geo, of.vnode.ino as nat, old(of.vnode.inode), of.vnode.inode, length, res)
       <==> Fits(old(of.vnode.inode), fs.geo.blockSize, length)
  {
    hide Rep, OwnBlocks, Sane, InodeOk, FreedTo, Truncates, CutTo, TruncatesAsAsked, Fits, NBlocks, BlocksFor, Becomes;
    ghost var v, inode, x := fs.view, of.vnode.inode, of.vnode.ino as nat;
    VolumeSane(fs);
    GeometryBounds(fs);
    if length == of.vnode.inode.size {
      res := 0;
    } else {
      res := Cut(fs, of, length);
    }
    TruncateExact(v, fs.view, fs.geo, x, inode, of.vnode.inode, length, res);
  }

  /** The part after the first test. */
  method Cut(fs: Volume, of: Ofile, length: nat) returns (res: int)
    requires fs.Valid() && fs.geo.blockSize > 0 && of.vnode.Synced(fs) && OwnBlocks(fs.view, of.vnode.inode, fs.geo.blockSize)
    modifies fs, of.vnode
    ensures fs.Valid() && of.vnode.Synced(fs)
    ensures var inode, bs := old(of.vnode.inode), fs.geo.blockSize;
            if BlocksFor(length, bs) < NBlocks(inode, bs) then
              res == 0 && CutTo(old(fs.view), fs.view, fs.geo, of.vnode.ino as nat, inode, of.vnode.inode, length)
            else
              res == EINVAL && fs.view == old(fs.view) && of.vnode.inode == inode
  {
    hide Rep, OwnBlocks, Sane, InodeOk, FreedTo, CutTo, NBlocks, BlocksFor, Becomes;
    var bs := fs.geo.blockSize;
    var was, now := NBlocks(of.vnode.inode, bs), BlocksFor(length, bs);
    var delta: int := now as int - was as int;
    if delta < 0 {
      ghost var v, inode, x := fs.view, of.vnode.inode, of.vnode.ino as nat;
      VolumeSane(fs);
      ShapesOk(fs, of.vnode);
      OwnKnown(v, inode, bs);
      FreedToNone(v, fs.geo, x, inode, now);
      var i := now;
      while i < was
        invariant now <= i <= was && fs.Valid() && FreedTo(v, fs.view, fs.geo, x, inode, of.vnode.inode, now, i)
      {
        FreeNext(fs, of.vnode, now, i, v, inode);
        i := i + 1;
      }
      VolumeSane(fs);
      FreedToKnown(v, fs.view, fs.geo, x, inode, of.vnode.inode, now, was, length);
      ghost var v1, i1 := fs.view, of.vnode.inode;
      if of.vnode.inode.size != length {
        of.vnode.inode := of.vnode.inode.(size := length % U32_LIMIT);
        SameInodeOk(i1, of.vnode.inode, fs.geo.inodeSize);
        fs.WriteInode(of.vnode.inode, of.vnode.ino);
      }
      FinalWrite(v, v1, fs.view, fs.geo, x, inode, i1, of.vnode.inode, length);
      res := 0;
    } else {
      res := EINVAL;
    }
  }

  lemma {:induction false} LengthFits(inode: Inode, bs: nat, length: nat)
    requires bs > 0 && CeilDiv(length, bs) < NBlocks(inode, bs)
    ensures length < inode.size < U32_LIMIT
  {
    if inode.size <= length {
      CeilMono(inode.size, length, bs);
    }
  }

  lemma {:induction false} FreedToKnown(v: View, v1: View, geo: Geometry, x: nat, inode: Inode, i1: Inode, m: nat, n: nat, length: nat)
    requires m < n <= |inode.direct| && FreedTo(v, v1, geo, x, inode, i1, m, n) && x in v.table && InodeOk(inode, geo.inodeSize)
    ensures x in v1.table && v1.table[x] == i1 && InodeOk(i1, geo.inodeSize)
    ensures i1.direct == ZeroedFrom(inode.direct, m, n)
  {
  }

  lemma {:induction false} FinalWrite(v: View, v1: View, v2: View, geo: Geometry, x: nat, inode: Inode, i1: Inode, i2: Inode, length: nat)
    requires geo.blockSize > 0 && BlocksFor(length, geo.blockSize) < NBlocks(inode, geo.blockSize) <= |inode.direct|
    requires FreedTo(v, v1, geo, x, inode, i1, BlocksFor(length, geo.blockSize), NBlocks(inode, geo.blockSize)) && Sane(v1, geo)
    requires i2 == i1.(size := length % U32_LIMIT) && InodeOk(i2, geo.inodeSize)
    requires v2 == if i1.size == length then v1 else v1.(table := v1.table[x := i2])
    ensures CutTo(v, v2, geo, x, inode, i2, length)
  {
    hide BlocksFor, NBlocks, Sane, InodeOk;
    assert v1.table[x := i2] == v.table[x := i2];
    assert i1.size == length ==> i2 == i1;
  }
}
