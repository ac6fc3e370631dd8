/** Truncating to a length within a block of 2^64: counting the blocks wraps, and the call
    that should be refused empties the file and leaves a size that nothing backs. */
module Overlong {
  import opened Arith
  import opened Bytes
  import opened Layout
  import opened Inodes
  import opened State
  import opened Effects
  import opened Files
  import opened Fsck
  import opened FsckDirs
  import opened FsckFiles
  import opened VnodeUnlink
  import opened VnodeTrunc
  import opened Aheads
  import Runs

  /** Truncating a file of a clean volume: the volume is clean afterwards, with the file in
      use, if and only if the length fits, which the caller can tell beforehand. */
  lemma {:induction false} TruncateCleanExact(v: View, v': View, geo: Geometry, c: Catalog, i: nat, inode': Inode, length: nat, res: int)
    requires Ok(v, geo, c) && i in c.Live() && i in v.table && !IsDir(v.table[i])
    requires 0 < geo.blockSize < U32_LIMIT && length < SIZE_T && NBlocks(v.table[i], geo.blockSize) <= DIRECT
    requires DidTruncate(v, v', geo, i, v.table[i], inode', length, res)
    ensures StillUsable(v', geo, i) <==> Fits(v.table[i], geo.blockSize, length)
  {
    hide *;
    OkParts(v, geo, c);
    CleanSettled(v, geo, c, i);
    OwnedFile(v, geo, c, i);
    TruncateExact(v, v', geo, i, v.table[i], inode', length, res);
    if Fits(v.table[i], geo.blockSize, length) {
      AskedStaysClean(v, v', geo, c, i, inode', length, res);
    } else {
      AllGone(v, v', geo, i, inode', length, res);
      forall d: Catalog | i in d.Live() ensures !Ok(v', geo, d) {
        ZeroPointer(v', geo, d, i, 0);
      }
      NotUsable(v', geo, i);
    }
  }

  lemma {:induction false} NotUsable(v: View, geo: Geometry, i: nat)
    requires forall d: Catalog :: i in d.Live() ==> !Ok(v, geo, d)
    ensures !StillUsable(v, geo, i)
  {
    hide Ok;
  }

  lemma {:induction false} OwnedFile(v: View, geo: Geometry, c: Catalog, i: nat)
    requires Ok(v, geo, c) && i in c.Live() && i in v.table && geo.blockSize > 0 && NBlocks(v.table[i], geo.blockSize) <= DIRECT
    ensures OwnBlocks(v, v.table[i], geo.blockSize)
  {
    CleanFile(v, geo, c, i);
  }

  lemma {:induction false} AskedStaysClean(v: View, v': View, geo: Geometry, c: Catalog, i: nat, inode': Inode, length: nat, res: int)
    requires Ok(v, geo, c) && i in c.Live() && i in v.table && !IsDir(v.table[i]) && geo.blockSize > 0
    requires TruncatesAsAsked(v, v', geo, i, v.table[i], inode', length, res)
    ensures StillUsable(v', geo, i)
  {
    hide Ok, Truncates, IsDir, NBlocks, CeilDiv;
    if res == 0 && length != v.table[i].size {
      Runs.CutKeeps(v, v', geo, c, i, inode', length);
      ChangedCatalog(c, i, v.table[i], inode', geo.blockSize);
    }
  }

  /** A length that does not fit: every block goes, and the inode written has a size, its
      pointers being 0. */
  lemma {:induction false} AllGone(v: View, v': View, geo: Geometry, i: nat, inode': Inode, length: nat, res: int)
    requires i in v.table && 0 < geo.blockSize < U32_LIMIT && length < SIZE_T && !Fits(v.table[i], geo.blockSize, length)
    requires DidTruncate(v, v', geo, i, v.table[i], inode', length, res)
    ensures res == 0 && inode'.size == length - (SIZE_T - U32_LIMIT) > 0 && i in v'.table && v'.table[i] == inode'
    ensures |inode'.direct| == DIRECT && inode'.direct[0] == 0 && 0 < Span(inode', geo.blockSize)
    ensures v'.blocks.free == v.blocks.free + BlocksFrom(v.table[i], 0, NBlocks(v.table[i], geo.blockSize))
  {
    hide BlocksFor, NBlocks;
    BlocksForIs(length, geo.blockSize);
    assert length % U32_LIMIT == length - (SIZE_T - U32_LIMIT);
    SomeSpan(inode', geo.blockSize);
  }

  lemma {:induction false} SomeSpan(inode: Inode, bs: nat)
    requires bs > 0 && inode.size > 0
    ensures NBlocks(inode, bs) > 0
  {
    CeilBounds(inode.size, bs);
  }

  /** A case in point: a file of one block of 1024 bytes, truncated to (size_t) -1. The call
      succeeds; the block is free, the inode says 2^32 - 1 bytes and has no block. */
  lemma {:induction false} TruncateHarms(v: View, v': View, geo: Geometry, c: Catalog, i: nat, inode': Inode, res: int)
    requires Ok(v, geo, c) && i in c.Live() && i in v.table && !IsDir(v.table[i])
    requires geo.blockSize == 1024 && v.table[i].size == 1024
    requires DidTruncate(v, v', geo, i, v.table[i], inode', SIZE_T - 1, res)
    ensures res == 0 && inode'.size == 0xFFFF_FFFF && |inode'.direct| > 0 && inode'.direct[0] == 0
    ensures |v.table[i].direct| > 0 && v'.blocks.free == v.blocks.free + {v.table[i].direct[0] as nat}
    ensures !StillUsable(v', geo, i)
  {
    hide Ok, IsDir, DidTruncate, StillUsable, NBlocks, Span;
    SpanOne(v.table[i], 1024);
    TruncateCleanExact(v, v', geo, c, i, inode', SIZE_T - 1, res);
    AllGone(v, v', geo, i, inode', SIZE_T - 1, res);
    LiveUsed(v, geo, c, i);
    UsedPointers(v, geo, c, i);
  }

  lemma {:induction false} UsedPointers(v: View, geo: Geometry, c: Catalog, i: nat)
    requires Ok(v, geo, c) && i in c.Live()
    ensures i in v.table && |v.table[i].direct| == DIRECT && BlocksFrom(v.table[i], 0, 1) == {v.table[i].direct[0] as nat}
  {
    LiveUsed(v, geo, c, i);
    hide Ok, Sane;
  }
}
