/** A write that runs out of space leaves the inode in memory ahead of the one on the device:
    its size already counts the bytes that found no block. What a further write through the
    vnode, which is still open, does to the volume. */
module Aheads {
  import opened Arith
  import opened Bytes
  import opened Numbering
  import opened Layout
  import opened Inodes
  import opened State
  import opened Effects
  import opened Files
  import opened Fsck
  import opened FsckDirs
  import opened FsckFiles
  import opened Vnodes
  import opened VnodeWrite

  /** `inode` in memory has the pointers of inode i on the device, none behind the file's
      blocks, but a size that spans more. */
  ghost predicate Ahead(v: View, i: nat, inode: Inode, bs: nat)
    requires bs > 0
  {
    && i in v.table && inode == v.table[i].(size := inode.size) && OwnBlocks(v, v.table[i], bs)
    && NBlocks(v.table[i], bs) < DIRECT && NBlocks(v.table[i], bs) < NBlocks(inode, bs)
    && ZeroFrom(inode, NBlocks(v.table[i], bs))
  }

  /** How many direct pointers the size spans after the whole write. */
  function SpanAfter(inode: Inode, pos: nat, count: nat, bs: nat): nat
    requires bs > 0
  {
    var fill := Reached(inode, pos, count, bs);
    Min(CeilDiv(Max(pos + fill, inode.size) + (count - fill), bs), DIRECT)
  }

  /** The write does nothing, or does not get to write the inode, or it puts a block just
      where the only one is missing; n is the number of blocks the file has. */
  ghost predicate Harmless(free: set<nat>, n: nat, inode: Inode, pos: nat, count: nat, bs: nat)
    requires bs > 0
  {
    var fill := Reached(inode, pos, count, bs);
    || count == 0
    || (fill < count && free == {})
    || (fill < count && NextIndex(inode.size, pos, bs) == n && SpanAfter(inode, pos, count, bs) == n + 1)
  }

  /** The volume is clean, with inode i in use. */
  ghost predicate StillUsable(v: View, geo: Geometry, i: nat) {
    exists c: Catalog :: i in c.Live() && Ok(v, geo, c)
  }

  // ---- when it does harm -------------------------------------------------------------------

  lemma {:induction false} OwnedPointer(v: View, geo: Geometry, c: Catalog, i: nat, k: nat)
    requires Ok(v, geo, c) && i in c.Live() && i in v.table && k < Span(v.table[i], geo.blockSize)
    ensures v.table[i].direct[k] != 0
  {
    assert Holds(v, geo.blockSize, c.owner, i);
    assert OwnedAt(v, c.owner, v.table[i].direct[k], i, k);
  }

  /** An inode in use with a zero pointer among those its size spans is not clean. */
  lemma {:induction false} ZeroPointer(v: View, geo: Geometry, c: Catalog, i: nat, k: nat)
    requires geo.blockSize > 0 && i in c.Live() && i in v.table
    requires k < Span(v.table[i], geo.blockSize) && v.table[i].direct[k] == 0
    ensures !Ok(v, geo, c)
  {
    hide Ok;
    if Ok(v, geo, c) {
      OwnedPointer(v, geo, c, i, k);
    }
  }

  /** What a harmful write leaves: a zero pointer in the inode on the device. */
  lemma {:induction false} HarmDone(v: View, v': View, geo: Geometry, i: nat, inode: Inode, inode': Inode, pos: nat, pos': nat, d: seq<byte>, taken: set<nat>, res: int)
    returns (k: nat)
    requires geo.blockSize > 0 && Ahead(v, i, inode, geo.blockSize) && pos <= inode.size
    requires DidWrite(v, v', geo, i, inode, inode', pos, pos', d, taken, res)
    requires !Harmless(v.blocks.free, NBlocks(v.table[i], geo.blockSize), inode, pos, |d|, geo.blockSize)
    ensures i in v'.table && |v'.table[i].direct| == DIRECT && k < Span(v'.table[i], geo.blockSize) && v'.table[i].direct[k] == 0
  {
    var bs, n, fill := geo.blockSize, NBlocks(v.table[i], geo.blockSize), Reached(inode, pos, |d|, geo.blockSize);
    var v1, inode1 := HalfView(v, inode, bs, pos, d), inode.(size := Max(pos + fill, inode.size));
    hide HalfView, OwnBlocks, Reached, NextIndex, CeilDiv, PutsBehind, Times;
    CeilMono(inode.size, inode1.size, bs);
    k := n;
    if fill < |d| {
      var index := NextIndex(inode.size, pos, bs);
      var no :| taken == {no} && PutsBehind(v1, v', geo, i, inode1, inode', index, no, d[fill..]);
      PutsKnown(v1, v', geo, i, inode1, inode', index, no, d[fill..]);
      CeilMono(inode.size, inode'.size, bs);
      if index == n {
        k := n + 1;
      }
    } else {
      HalfTable(v, inode, bs, pos, d);
    }
  }

  lemma {:induction false} PutsKnown(v1: View, v2: View, geo: Geometry, i: nat, inode: Inode, inode': Inode, index: nat, no: nat, d: seq<byte>)
    requires PutsBehind(v1, v2, geo, i, inode, inode', index, no, d)
    ensures index < |inode.direct| && i in v2.table && v2.table[i] == inode' && no < U32_LIMIT && inode.size + |d| < U32_LIMIT
    ensures inode' == inode.(size := inode.size + |d|, direct := inode.direct[index := no])
  {
  }

  lemma {:induction false} HalfTable(v: View, inode: Inode, bs: nat, pos: nat, d: seq<byte>)
    requires bs > 0
    ensures var v1 := HalfView(v, inode, bs, pos, d); v1.table == v.table && v1.blocks == v.blocks && v1.inodes == v.inodes
  {
  }

  // ---- when it does not --------------------------------------------------------------------

  /** The first part of a write only touches the file's own blocks. */
  lemma {:induction false} HalfOwn(v: View, geo: Geometry, i: nat, inode: Inode, pos: nat, d: seq<byte>)
    requires Sane(v, geo) && Ahead(v, i, inode, geo.blockSize) && Carried(v.data, inode, pos, |d|, geo.blockSize)
    ensures var v1 := HalfView(v, inode, geo.blockSize, pos, d);
            && v1 == v.(data := v1.data) && v1.data.Keys == v.data.Keys
            && (forall b :: b in v1.data ==> |v1.data[b]| == geo.blockSize)
            && (forall b :: b in v.data && b !in BlockSet(v.table[i], geo.blockSize) ==> v1.data[b] == v.data[b])
  {
    var bs, k := geo.blockSize, Quot(pos, geo.blockSize);
    if Reached(inode, pos, |d|, bs) > 0 {
      assert k < NBlocks(v.table[i], bs);
      assert v.table[i].direct[k] as nat in BlockSet(v.table[i], bs);
    }
  }

  lemma {:induction false} ContentsChange(v: View, v1: View, geo: Geometry, i: nat)
    requires Sane(v, geo) && i in v.table
    requires v1 == v.(data := v1.data) && v1.data.Keys == v.data.Keys
    requires forall b :: b in v1.data ==> |v1.data[b]| == geo.blockSize
    requires forall b :: b in v.data && b !in BlockSet(v.table[i], geo.blockSize) ==> v1.data[b] == v.data[b]
    ensures Changes(v, v1, geo, i, v.table[i], v1.data, {}, {})
  {
    var inode, bs := v.table[i], geo.blockSize;
    assert InodeOk(inode, geo.inodeSize);
    WriteBecomes(v, geo, v.table, v1.data);
    assert v.table[i := inode] == v.table && v.blocks.free - {} + {} == v.blocks.free && v1 == v.(table := v.table, data := v1.data);
    hide Sane, Moved, InodeOk, BlockSet;
    forall k | 0 <= k < Span(inode, bs) ensures PointerOk(inode, inode, bs, {}, {}, k) {
    }
  }

  lemma {:induction false} NoGrowth(c: Catalog, i: nat, inode: Inode, bs: nat)
    requires bs > 0
    ensures AfterChange(c, i, inode, inode, bs) == c
  {
  }

  /** As long as only the contents of a file's own blocks change, the volume stays clean. */
  lemma {:induction false} StillClean(v: View, v1: View, geo: Geometry, c: Catalog, i: nat)
    requires Ok(v, geo, c) && i in c.Live() && i in v.table && !IsDir(v.table[i])
    requires v1 == v.(data := v1.data) && v1.data.Keys == v.data.Keys
    requires forall b :: b in v1.data ==> |v1.data[b]| == geo.blockSize
    requires forall b :: b in v.data && b !in BlockSet(v.table[i], geo.blockSize) ==> v1.data[b] == v.data[b]
    ensures Ok(v1, geo, c) && TreeOf(v1, geo.blockSize, c.Live()) == TreeOf(v, geo.blockSize, c.Live())
  {
    hide *;
    OkParts(v, geo, c);
    ContentsChange(v, v1, geo, i);
    ChangeKeeps(v, v1, geo, c, i, v.table[i], v1.data, {}, {});
    NoGrowth(c, i, v.table[i], geo.blockSize);
  }

  /** A block put where the only one was missing. */
  lemma {:induction false} Mended(v: View, v1: View, v2: View, geo: Geometry, i: nat, inode: Inode, inode1: Inode, inode2: Inode, no: nat, d: seq<byte>)
    requires Sane(v, geo) && Ahead(v, i, inode, geo.blockSize) && inode1 == inode.(size := inode1.size)
    requires v1 == v.(data := v1.data) && v1.data.Keys == v.data.Keys
    requires forall b :: b in v1.data ==> |v1.data[b]| == geo.blockSize
    requires forall b :: b in v.data && b !in BlockSet(v.table[i], geo.blockSize) ==> v1.data[b] == v.data[b]
    requires PutsBehind(v1, v2, geo, i, inode1, inode2, NBlocks(v.table[i], geo.blockSize), no, d)
    requires Span(inode2, geo.blockSize) == NBlocks(v.table[i], geo.blockSize) + 1
    ensures Changes(v, v2, geo, i, inode2, v2.data, {no}, {})
  {
    var bs, n, x := geo.blockSize, NBlocks(v.table[i], geo.blockSize), v.table[i];
    assert InodeOk(x, geo.inodeSize) && InodeOk(inode2, geo.inodeSize) && inode2.mode == x.mode;
    assert v.blocks.free - {no} + {} == v.blocks.free - {no};
    FreeFits(v, geo, no);
    assert v2.data == v1.data[no := v2.data[no]];
    assert v2.data.Keys == v.data.Keys;
    assert Becomes(v, v2, geo, v.blocks.free - {no} + {}, v.inodes.free, v.table[i := inode2], v2.data);
    hide Sane, Moved, InodeOk, BlockSet, OwnBlocks, Becomes, PutsBehind;
    forall k | 0 <= k < Span(inode2, bs) ensures PointerOk(x, inode2, bs, {no}, {}, k) {
    }
  }

  lemma {:induction false} AheadSpan(v: View, geo: Geometry, i: nat, inode: Inode, pos: nat, count: nat)
    requires geo.blockSize > 0 && Ahead(v, i, inode, geo.blockSize) && Carried(v.data, inode, pos, count, geo.blockSize)
    ensures var fill := Reached(inode, pos, count, geo.blockSize);
            && |inode.direct| == DIRECT && 0 <= Max(pos + fill, inode.size) < U32_LIMIT
            && forall inode': Inode :: inode'.size == Max(pos + fill, inode.size) + (count - fill) && |inode'.direct| == DIRECT ==>
                 Span(inode', geo.blockSize) == SpanAfter(inode, pos, count, geo.blockSize)
  {
  }

  /** A write that does not get to write the inode. */
  lemma {:induction false} UnwrittenKeeps(v: View, v': View, geo: Geometry, c: Catalog, i: nat, inode: Inode, inode': Inode, pos: nat, pos': nat, d: seq<byte>, taken: set<nat>, res: int)
    requires Ok(v, geo, c) && i in c.Live() && i in v.table && !IsDir(v.table[i]) && Ahead(v, i, inode, geo.blockSize)
    requires pos <= inode.size && Carried(v.data, inode, pos, |d|, geo.blockSize)
    requires DidWrite(v, v', geo, i, inode, inode', pos, pos', d, taken, res)
    requires d == [] || (Reached(inode, pos, |d|, geo.blockSize) < |d| && v.blocks.free == {})
    ensures Ok(v', geo, c) && TreeOf(v', geo.blockSize, c.Live()) == TreeOf(v, geo.blockSize, c.Live())
  {
    hide *;
    OkParts(v, geo, c);
    HalfOwn(v, geo, i, inode, pos, d);
    HalfNone(v, inode, geo.blockSize, pos);
    UnwrittenIs(v, v', geo, i, inode, inode', pos, pos', d, taken, res);
    StillClean(v, v', geo, c, i);
  }

  lemma {:induction false} UnwrittenIs(v: View, v': View, geo: Geometry, i: nat, inode: Inode, inode': Inode, pos: nat, pos': nat, d: seq<byte>, taken: set<nat>, res: int)
    requires geo.blockSize > 0 && DidWrite(v, v', geo, i, inode, inode', pos, pos', d, taken, res)
    requires d == [] || (Reached(inode, pos, |d|, geo.blockSize) < |d| && v.blocks.free == {})
    ensures v' == HalfView(v, inode, geo.blockSize, pos, d)
  {
    hide HalfView, PutsBehind;
  }

  lemma {:induction false} MendingChanges(v: View, v': View, geo: Geometry, i: nat, inode: Inode, inode': Inode, pos: nat, pos': nat, d: seq<byte>, taken: set<nat>, res: int)
    returns (no: nat)
    requires Sane(v, geo) && geo.blockSize > 0 && Ahead(v, i, inode, geo.blockSize) && i in v.table
    requires pos <= inode.size && Carried(v.data, inode, pos, |d|, geo.blockSize)
    requires DidWrite(v, v', geo, i, inode, inode', pos, pos', d, taken, res)
    requires Reached(inode, pos, |d|, geo.blockSize) < |d| && v.blocks.free != {}
    requires NextIndex(inode.size, pos, geo.blockSize) == NBlocks(v.table[i], geo.blockSize)
    requires SpanAfter(inode, pos, |d|, geo.blockSize) == NBlocks(v.table[i], geo.blockSize) + 1
    ensures Changes(v, v', geo, i, inode', v'.data, {no}, {})
  {
    hide *;
    var bs, fill := geo.blockSize, Reached(inode, pos, |d|, geo.blockSize);
    HalfOwn(v, geo, i, inode, pos, d);
    AheadSpan(v, geo, i, inode, pos, |d|);
    var inode1;
    no, inode1 := TakenNumber(v, v', geo, i, inode, inode', pos, pos', d, taken, res);
    var v1 := HalfView(v, inode, bs, pos, d);
    PutsKnown(v1, v', geo, i, inode1, inode', NextIndex(inode.size, pos, bs), no, d[fill..]);
    Mended(v, v1, v', geo, i, inode, inode1, inode', no, d[fill..]);
  }

  /** A write that puts a block where the only one was missing. */
  lemma {:induction false} MendingKeeps(v: View, v': View, geo: Geometry, c: Catalog, i: nat, inode: Inode, inode': Inode, pos: nat, pos': nat, d: seq<byte>, taken: set<nat>, res: int)
    returns (c': Catalog)
    requires Ok(v, geo, c) && i in c.Live() && i in v.table && !IsDir(v.table[i]) && Ahead(v, i, inode, geo.blockSize)
    requires pos <= inode.size && Carried(v.data, inode, pos, |d|, geo.blockSize)
    requires DidWrite(v, v', geo, i, inode, inode', pos, pos', d, taken, res)
    requires Reached(inode, pos, |d|, geo.blockSize) < |d| && v.blocks.free != {}
    requires NextIndex(inode.size, pos, geo.blockSize) == NBlocks(v.table[i], geo.blockSize)
    requires SpanAfter(inode, pos, |d|, geo.blockSize) == NBlocks(v.table[i], geo.blockSize) + 1
    ensures i in c'.Live() && Ok(v', geo, c') && c' == AfterChange(c, i, v.table[i], inode', geo.blockSize)
    ensures TreeOf(v', geo.blockSize, c'.Live()) == TreeOf(v, geo.blockSize, c.Live())
    ensures i in v'.table && v'.table[i] == inode' && !IsDir(inode')
  {
    hide *;
    OkParts(v, geo, c);
    var no := MendingChanges(v, v', geo, i, inode, inode', pos, pos', d, taken, res);
    ChangeKeeps(v, v', geo, c, i, inode', v'.data, {no}, {});
    ChangedCatalog(c, i, v.table[i], inode', geo.blockSize);
    ChangedTable(v, v', geo, i, inode', {no}, {});
    ChangedInode(v, v', geo, i, inode', v'.data, {no}, {});
    c' := AfterChange(c, i, v.table[i], inode', geo.blockSize);
  }

  lemma {:induction false} ChangedTable(v: View, v': View, geo: Geometry, i: nat, inode': Inode, taken: set<nat>, given: set<nat>)
    requires geo.blockSize > 0 && Changes(v, v', geo, i, inode', v'.data, taken, given)
    ensures i in v.table && v'.table == v.table[i := inode']
  {
  }

  /** A write that did not get to write the inode leaves it ahead, perhaps by more. */
  lemma {:induction false} StaysAhead(v: View, v': View, geo: Geometry, i: nat, inode: Inode, inode': Inode, pos: nat, pos': nat, d: seq<byte>, taken: set<nat>, res: int)
    requires geo.blockSize > 0 && Ahead(v, i, inode, geo.blockSize) && pos <= inode.size
    requires DidWrite(v, v', geo, i, inode, inode', pos, pos', d, taken, res)
    requires d == [] || (Reached(inode, pos, |d|, geo.blockSize) < |d| && v.blocks.free == {})
    ensures Ahead(v', i, inode', geo.blockSize) && v'.table == v.table
  {
    var bs := geo.blockSize;
    UnwrittenIs(v, v', geo, i, inode, inode', pos, pos', d, taken, res);
    HalfTable(v, inode, bs, pos, d);
    HalfKeys(v, inode, bs, pos, d);
    CeilMono(inode.size, inode'.size, bs);
    hide HalfView, Reached;
  }

  lemma {:induction false} HalfKeys(v: View, inode: Inode, bs: nat, pos: nat, d: seq<byte>)
    requires bs > 0
    ensures HalfView(v, inode, bs, pos, d).data.Keys == v.data.Keys
  {
  }

  lemma {:induction false} HalfNone(v: View, inode: Inode, bs: nat, pos: nat)
    requires bs > 0
    ensures HalfView(v, inode, bs, pos, []) == v && Reached(inode, pos, 0, bs) == 0
  {
  }

  /** A write through a vnode whose inode is ahead, at any position: the volume is clean
      afterwards (with the file in use) if and only if the write was harmless, which a caller
      can tell beforehand from the free blocks, the sizes, the position and the count. */
  lemma {:induction false} AheadWriteExact(v: View, v': View, geo: Geometry, c: Catalog, i: nat, inode: Inode, inode': Inode, pos: nat, pos': nat, d: seq<byte>, taken: set<nat>, res: int)
    requires Ok(v, geo, c) && i in c.Live() && i in v.table && !IsDir(v.table[i]) && Ahead(v, i, inode, geo.blockSize)
    requires pos <= inode.size && Carried(v.data, inode, pos, |d|, geo.blockSize)
    requires DidWrite(v, v', geo, i, inode, inode', pos, pos', d, taken, res)
    ensures StillUsable(v', geo, i) <==> Harmless(v.blocks.free, NBlocks(v.table[i], geo.blockSize), inode, pos, |d|, geo.blockSize)
  {
    hide Ok, Sane, Ahead, Carried, DidWrite, Harmless, IsDir;
    BlockSizePositive(v, geo, c);
    if Harmless(v.blocks.free, NBlocks(v.table[i], geo.blockSize), inode, pos, |d|, geo.blockSize) {
      HarmlessCases(v.blocks.free, NBlocks(v.table[i], geo.blockSize), inode, pos, d, geo.blockSize);
      if d == [] || v.blocks.free == {} {
        UnwrittenKeeps(v, v', geo, c, i, inode, inode', pos, pos', d, taken, res);
      } else {
        var c' := MendingKeeps(v, v', geo, c, i, inode, inode', pos, pos', d, taken, res);
      }
    } else {
      var k := HarmDone(v, v', geo, i, inode, inode', pos, pos', d, taken, res);
      forall c': Catalog | i in c'.Live() ensures !Ok(v', geo, c') {
        ZeroPointer(v', geo, c', i, k);
      }
    }
  }

  lemma {:induction false} HarmlessCases(free: set<nat>, n: nat, inode: Inode, pos: nat, d: seq<byte>, bs: nat)
    requires bs > 0 && Harmless(free, n, inode, pos, |d|, bs)
    ensures d == [] || Reached(inode, pos, |d|, bs) < |d|
    ensures d == [] || free == {} || (NextIndex(inode.size, pos, bs) == n && SpanAfter(inode, pos, |d|, bs) == n + 1)
  {
  }

  lemma {:induction false} BlockSizePositive(v: View, geo: Geometry, c: Catalog)
    requires Ok(v, geo, c)
    ensures geo.blockSize > 0
  {
  }

  // ---- how it comes about, and the retry ---------------------------------------------------

  lemma {:induction false} CarriedEnd(data: Data, inode: Inode, pos: nat, n: nat, bs: nat)
    requires bs > 0 && Carried(data, inode, pos, n, bs)
    ensures pos + n < U32_LIMIT && (n > Reached(inode, pos, n, bs) ==> NextIndex(inode.size, pos, bs) < DIRECT)
  {
    hide Reached, NextIndex, Quot, Rem;
  }

  /** A write that found no space for its second part. */
  lemma {:induction false} ShortParts(v: View, v': View, geo: Geometry, i: nat, inode: Inode, inode': Inode, pos: nat, pos': nat, d: seq<byte>, taken: set<nat>, res: int)
    returns (inode1: Inode)
    requires geo.blockSize > 0 && DidWrite(v, v', geo, i, inode, inode', pos, pos', d, taken, res)
    requires Reached(inode, pos, |d|, geo.blockSize) < |d| && v.blocks.free == {}
    ensures HalfWritten(v, v', geo.blockSize, inode, inode1, pos, d) && v' == HalfView(v, inode, geo.blockSize, pos, d)
    ensures pos' == pos + Reached(inode, pos, |d|, geo.blockSize) && inode1 == inode.(size := inode1.size)
    ensures inode' == inode.(size := inode'.size) && inode'.size > inode1.size
  {
    hide HalfView, Reached, PutsBehind;
    inode1 := inode.(size := Max(pos + Reached(inode, pos, |d|, geo.blockSize), inode.size));
  }

  lemma {:induction false} AheadFrom(v: View, i: nat, inode: Inode, inode': Inode, bs: nat)
    requires bs > 0 && i in v.table && v.table[i] == inode && inode' == inode.(size := inode'.size) && OwnBlocks(v, inode, bs)
    requires NBlocks(inode, bs) < DIRECT && NBlocks(inode, bs) < NBlocks(inode', bs) && ZeroFrom(inode, NBlocks(inode, bs))
    ensures Ahead(v, i, inode', bs)
  {
    hide OwnBlocks, NBlocks;
  }

  lemma {:induction false} GoesAhead(v: View, v': View, geo: Geometry, i: nat, inode: Inode, inode': Inode, pos: nat, pos': nat, d: seq<byte>, taken: set<nat>, res: int)
    requires Sane(v, geo) && geo.blockSize > 0 && Settled(v, i, inode, geo.blockSize) && ZeroFrom(inode, NBlocks(inode, geo.blockSize))
    requires pos <= inode.size && Carried(v.data, inode, pos, |d|, geo.blockSize) && WriteSafe(inode.size, pos, |d|, geo.blockSize)
    requires DidWrite(v, v', geo, i, inode, inode', pos, pos', d, taken, res)
    requires Reached(inode, pos, |d|, geo.blockSize) < |d| && v.blocks.free == {}
    ensures Ahead(v', i, inode', geo.blockSize) && pos' == Times(NBlocks(inode, geo.blockSize), geo.blockSize)
    ensures i in v'.table && v'.table[i] == inode
  {
    hide *;
    var bs, n, fill := geo.blockSize, NBlocks(inode, geo.blockSize), Reached(inode, pos, |d|, geo.blockSize);
    SettledMeans(v, i, inode, bs);
    SettledReach(v, geo, inode, pos, |d|);
    var inode1 := ShortParts(v, v', geo, i, inode, inode', pos, pos', d, taken, res);
    CarriedEnd(v.data, inode, pos, |d|, bs);
    HalfSane(v, v', geo, inode, inode1, pos, d);
    HalfFilled(v, v', geo, inode, inode1, pos, d);
    FilledEnds(v, v', geo, inode, inode1, pos, d[..fill]);
    HalfOwnBlocks(v, v', inode, bs, pos, d);
    MoreBlocks(inode', n, bs);
    AheadFrom(v', i, inode, inode', bs);
  }

  lemma {:induction false} CleanSettled(v: View, geo: Geometry, c: Catalog, i: nat)
    requires Ok(v, geo, c) && i in c.Live() && i in v.table && !IsDir(v.table[i]) && geo.blockSize > 0
    requires NBlocks(v.table[i], geo.blockSize) <= DIRECT
    ensures Settled(v, i, v.table[i], geo.blockSize) && ZeroFrom(v.table[i], NBlocks(v.table[i], geo.blockSize))
  {
    hide Ok, ZeroFrom, OwnBlocks, IsDir, NBlocks;
    CleanFile(v, geo, c, i);
    CleanTail(v, geo, c, i);
  }

  /** A supported write that runs out of space leaves the inode in memory ahead, and the
      position at the end of the file's last block. */
  lemma {:induction false} RunsAhead(v: View, v': View, geo: Geometry, c: Catalog, i: nat, inode': Inode, pos: nat, pos': nat, d: seq<byte>, taken: set<nat>, res: int)
    requires Ok(v, geo, c) && i in c.Live() && i in v.table && !IsDir(v.table[i]) && geo.blockSize > 0
    requires var inode := v.table[i];
             && NBlocks(inode, geo.blockSize) <= DIRECT && pos <= inode.size
             && Carried(v.data, inode, pos, |d|, geo.blockSize) && WriteSafe(inode.size, pos, |d|, geo.blockSize)
             && DidWrite(v, v', geo, i, inode, inode', pos, pos', d, taken, res)
             && Reached(inode, pos, |d|, geo.blockSize) < |d| && v.blocks.free == {}
    ensures Ahead(v', i, inode', geo.blockSize) && pos' == Times(NBlocks(v.table[i], geo.blockSize), geo.blockSize)
    ensures i in v'.table && v'.table[i] == v.table[i]
  {
    hide *;
    OkParts(v, geo, c);
    CleanSettled(v, geo, c, i);
    GoesAhead(v, v', geo, i, v.table[i], inode', pos, pos', d, taken, res);
  }

  lemma {:induction false} FilledEnds(v: View, v1: View, geo: Geometry, inode: Inode, inode1: Inode, pos: nat, d: seq<byte>)
    requires geo.blockSize > 0 && Filled(v, v1, geo, inode, inode1, pos, d)
    ensures pos + |d| == inode1.size == Times(NBlocks(inode, geo.blockSize), geo.blockSize)
  {
  }

  lemma {:induction false} HalfOwnBlocks(v: View, v1: View, inode: Inode, bs: nat, pos: nat, d: seq<byte>)
    requires bs > 0 && OwnBlocks(v, inode, bs) && v1 == HalfView(v, inode, bs, pos, d)
    ensures OwnBlocks(v1, inode, bs)
  {
  }

  lemma {:induction false} MoreBlocks(inode: Inode, n: nat, bs: nat)
    requires bs > 0 && inode.size > Times(n, bs)
    ensures NBlocks(inode, bs) > n
  {
    CeilBounds(inode.size, bs);
    if NBlocks(inode, bs) <= n {
      TimesMono(NBlocks(inode, bs), n, bs);
    }
  }

  /** Writing on from there, less than a block: harmless exactly as long as there still is no
      space. The block at the position cannot be read, so the bytes go one block further,
      and the inode is written with a hole that is no block. */
  lemma {:induction false} RetryExact(v: View, i: nat, inode: Inode, pos: nat, count: nat, bs: nat, data: Data)
    requires bs > 0 && Ahead(v, i, inode, bs) && NBlocks(v.table[i], bs) + 1 < DIRECT
    requires pos == Times(NBlocks(v.table[i], bs), bs) && 0 < count < bs && inode.size + bs <= U32_LIMIT
    ensures pos <= inode.size && Reached(inode, pos, count, bs) == 0 && Carried(data, inode, pos, count, bs)
    ensures Harmless(v.blocks.free, NBlocks(v.table[i], bs), inode, pos, count, bs) <==> v.blocks.free == {}
  {
    var n := NBlocks(v.table[i], bs);
    DivUnique(pos, n, 0, bs);
    CeilBounds(inode.size, bs);
    TimesMono(n, NBlocks(inode, bs) - 1, bs);
    assert Times(NBlocks(inode, bs), bs) == bs + Times(NBlocks(inode, bs) - 1, bs);
    if Rem(inode.size, bs) == 0 {
      DivSplit(inode.size, bs);
      CeilUnique(inode.size, Quot(inode.size, bs), bs);
      AfterFull(inode, count, bs);
    }
  }

  lemma {:induction false} AfterFull(inode: Inode, count: nat, bs: nat)
    requires bs > 0 && inode.size == Times(NBlocks(inode, bs), bs) && 0 < count
    ensures CeilDiv(inode.size + count, bs) > NBlocks(inode, bs)
  {
    CeilBounds(inode.size + count, bs);
    if CeilDiv(inode.size + count, bs) <= NBlocks(inode, bs) {
      TimesMono(CeilDiv(inode.size + count, bs), NBlocks(inode, bs), bs);
    }
  }

  /** A case in point: blocks of 1024 bytes, a file of one full block, ten bytes that found
      no space, and the same write again once there is some. By its sizes it is a write the
      driver supports, and it leaves the volume with an inode that lacks a block. */
  lemma {:induction false} RetryHarms(v: View, v': View, geo: Geometry, c: Catalog, i: nat, inode: Inode, inode': Inode, pos': nat, d: seq<byte>, taken: set<nat>, res: int)
    requires Ok(v, geo, c) && geo.blockSize == 1024 && i in c.Live() && i in v.table && !IsDir(v.table[i]) && Ahead(v, i, inode, 1024)
    requires v.table[i].size == 1024 && inode.size == 1034 && |d| == 10 && v.blocks.free != {}
    requires DidWrite(v, v', geo, i, inode, inode', 1024, pos', d, taken, res)
    ensures Writable(1034, 1024, 10, 1024) && WriteSafe(1034, 1024, 10, 1024)
    ensures !StillUsable(v', geo, i)
  {
    hide Ok, Sane, Ahead, DidWrite, Harmless, IsDir;
    TimesOne(1024);
    CeilUnique(1024, 1, 1024);
    DivUnique(1034, 1, 10, 1024);
    DivUnique(1024, 1, 0, 1024);
    RetryExact(v, i, inode, 1024, 10, 1024, v.data);
    AheadWriteExact(v, v', geo, c, i, inode, inode', 1024, pos', d, taken, res);
  }
}
