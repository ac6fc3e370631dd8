/** Runs of writes at the end of a file. */
module Appends {
  import opened Arith
  import opened Bytes
  import opened Numbering
  import opened Layout
  import opened Inodes
  import opened State
  import opened Effects
  import opened Files
  import opened Fsck
  import opened Vnodes
  import opened VnodeWrite

  /** What the next write finds: the volume, the inode in memory and the position. */
  datatype Moment = Moment(v: View, inode: Inode, pos: nat)

  datatype Call = Call(d: seq<byte>, taken: set<nat>, res: int)

  /** One write after the other on an open file of inode `ino`. */
  ghost predicate Writes(ms: seq<Moment>, geo: Geometry, ino: nat, calls: seq<Call>)
    requires geo.blockSize > 0
    decreases |calls|
  {
    && |ms| == |calls| + 1
    && (calls == [] ||
        (ms[0].pos <= ms[0].inode.size
         && Written(ms[0].v, ms[1].v, geo, ino, ms[0].inode, ms[1].inode, ms[0].pos, ms[1].pos, calls[0].d, calls[0].taken, calls[0].res)
         && Writes(ms[1..], geo, ino, calls[1..])))
  }

  ghost function Joined(calls: seq<Call>): seq<byte> {
    if calls == [] then [] else calls[0].d + Joined(calls[1..])
  }

  /** A write at the end is always of the supported kind, and its size is the sum. */
  lemma {:induction false} AtEndSafe(size: nat, n: nat, bs: nat)
    requires bs > 0
    ensures WriteSafe(size, size, n, bs) && SizeAfter(size, size, n, bs) == size + n
  {
    WriteSizeExact(size, size, n, bs);
  }

  /** It needs a new block only where the number of blocks spanned grows. */
  lemma {:induction false} AtEndFills(size: nat, n: nat, bs: nat)
    requires bs > 0 && CeilDiv(size + n, bs) <= CeilDiv(size, bs)
    ensures Fills(size, size, n, bs) == n
  {
    CeilBounds(size, bs);
    CeilBounds(size + n, bs);
    DivSplit(size, bs);
    TimesMono(CeilDiv(size + n, bs), CeilDiv(size, bs), bs);
    if Rem(size, bs) == 0 {
      CeilUnique(size, Quot(size, bs), bs);
    } else {
      CeilUnique(size, Quot(size, bs) + 1, bs);
    }
  }

  /** The driver carries it through if it is shorter than a block and ends within the direct
      blocks. */
  lemma {:induction false} AtEndWritable(size: nat, n: nat, bs: nat)
    requires 0 < n < bs <= 0x8000 && size + n <= Times(DIRECT, bs)
    ensures Writable(size, size, n, bs)
  {
    var q := Quot(size, bs);
    DivSplit(size, bs);
    assert Times(q + 1, bs) == bs + Times(q, bs);
    DivBound(size, DIRECT, bs);
    TimesIsProduct(DIRECT, bs);
    if q + 1 >= DIRECT {
      TimesMono(DIRECT, q + 1, bs);
    }
  }

  /** One write at the end of the file, where there is space for it. */
  lemma {:induction false} AppendStep(m: Moment, m': Moment, geo: Geometry, ino: nat, call: Call)
    requires geo.blockSize > 0 && m.pos == m.inode.size
    requires Written(m.v, m'.v, geo, ino, m.inode, m'.inode, m.pos, m'.pos, call.d, call.taken, call.res)
    requires CeilDiv(m.inode.size + |call.d|, geo.blockSize) <= CeilDiv(m.inode.size, geo.blockSize) + |m.v.blocks.free|
    ensures call.res == |call.d| && m'.pos == m'.inode.size == m.inode.size + |call.d|
    ensures WritesRight(m.v, m'.v, geo, ino, m.inode, m'.inode, m.pos, call.d, call.taken)
    ensures FileBytes(m'.v.data, m'.inode, geo.blockSize) == FileBytes(m.v.data, m.inode, geo.blockSize) + call.d
    ensures |m'.v.blocks.free| + CeilDiv(m'.inode.size, geo.blockSize) == |m.v.blocks.free| + CeilDiv(m.inode.size, geo.blockSize)
  {
    var bs := geo.blockSize;
    AtEndSafe(m.inode.size, |call.d|, bs);
    if CeilDiv(m.inode.size + |call.d|, bs) <= CeilDiv(m.inode.size, bs) {
      AtEndFills(m.inode.size, |call.d|, bs);
    }
    hide HalfWritten, WriteSafe, Fills, SizeAfter, CeilDiv, Changes, FileBytes, Patched;
    AppendPatches(FileBytes(m.v.data, m.inode, bs), call.d);
  }

  /** Any run of writes at the end of a file, as long as there is space: the file says what it
      said and then all buffers in order, the position is the new end, and the free blocks
      fell by exactly as many as the file grew by. */
  lemma {:induction false} AppendsConcat(ms: seq<Moment>, geo: Geometry, ino: nat, calls: seq<Call>)
    requires geo.blockSize > 0 && Writes(ms, geo, ino, calls) && ms[0].pos == ms[0].inode.size
    requires CeilDiv(ms[0].inode.size + |Joined(calls)|, geo.blockSize) <= CeilDiv(ms[0].inode.size, geo.blockSize) + |ms[0].v.blocks.free|
    ensures forall k :: 0 <= k < |calls| ==> calls[k].res == |calls[k].d|
    ensures var m := ms[|calls|];
            && FileBytes(m.v.data, m.inode, geo.blockSize) == FileBytes(ms[0].v.data, ms[0].inode, geo.blockSize) + Joined(calls)
            && m.pos == m.inode.size == ms[0].inode.size + |Joined(calls)|
            && |m.v.blocks.free| + CeilDiv(m.inode.size, geo.blockSize) == |ms[0].v.blocks.free| + CeilDiv(ms[0].inode.size, geo.blockSize)
    decreases |calls|
  {
    hide Written, CeilDiv, FileBytes, WritesRight;
    if calls != [] {
      var n := |calls[0].d|;
      CeilMono(ms[0].inode.size + n, ms[0].inode.size + |Joined(calls)|, geo.blockSize);
      AppendStep(ms[0], ms[1], geo, ino, calls[0]);
      AppendsConcat(ms[1..], geo, ino, calls[1..]);
      assert ms[1..][|calls[1..]|] == ms[|calls|];
      forall k | 0 <= k < |calls| ensures calls[k].res == |calls[k].d| {
        assert k > 0 ==> calls[1..][k - 1] == calls[k];
      }
    }
  }

  // ---- every call of the run can be made -----------------------------------------------------

  /** A supported write that found its space leaves the file settled, ready for the next. */
  lemma {:induction false} WriteSettles(v: View, v': View, geo: Geometry, ino: nat, inode: Inode, inode': Inode, pos: nat, d: seq<byte>, taken: set<nat>)
    requires Sane(v, geo) && geo.blockSize > 0 && Settled(v, ino, inode, geo.blockSize) && NBlocks(inode', geo.blockSize) <= DIRECT
    requires WritesRight(v, v', geo, ino, inode, inode', pos, d, taken)
    ensures Settled(v', ino, inode', geo.blockSize)
  {
    var bs := geo.blockSize;
    ChangedParts(v, v', geo, ino, inode', taken);
    hide WritesRight, Changes, PointerOk, FileBytes, Patched, Sane, Moved;
    forall k | 0 <= k < NBlocks(inode', bs) ensures inode'.direct[k] as nat in v'.data && inode'.direct[k] !in v'.blocks.free {
      PointerIs(v, geo, inode, inode', taken, k);
    }
    forall j, k | 0 <= j < k < Span(inode', bs) ensures inode'.direct[j] != inode'.direct[k] {
      PointerIs(v, geo, inode, inode', taken, j);
      PointerIs(v, geo, inode, inode', taken, k);
    }
  }

  lemma {:induction false} ChangedParts(v: View, v': View, geo: Geometry, ino: nat, inode': Inode, taken: set<nat>)
    requires geo.blockSize > 0 && ino in v.table && Changes(v, v', geo, ino, inode', v'.data, taken, {})
    ensures ino in v'.table && v'.table[ino] == inode' && |inode'.direct| == DIRECT && v'.data.Keys == v.data.Keys
    ensures v'.blocks.free == v.blocks.free - taken && taken <= v.blocks.free
    ensures forall k :: 0 <= k < Span(inode', geo.blockSize) ==> PointerOk(v.table[ino], inode', geo.blockSize, taken, {}, k)
  {
    hide PointerOk, BlockSet;
  }

  lemma {:induction false} PointerIs(v: View, geo: Geometry, inode: Inode, inode': Inode, taken: set<nat>, k: nat)
    requires Sane(v, geo) && geo.blockSize > 0 && OwnBlocks(v, inode, geo.blockSize) && taken <= v.blocks.free
    requires k < Span(inode', geo.blockSize) && PointerOk(inode, inode', geo.blockSize, taken, {}, k)
    ensures k <= Span(inode, geo.blockSize) && inode'.direct[k] as nat in v.data
    ensures if k < Span(inode, geo.blockSize) then inode'.direct[k] == inode.direct[k] && inode'.direct[k] !in v.blocks.free
            else inode'.direct[k] as nat in taken
  {
    if k == Span(inode, geo.blockSize) {
      FreeFits(v, geo, inode'.direct[k]);
    }
  }

  /** The volume is valid at every moment, and no write is as long as a block. */
  ghost predicate Steady(ms: seq<Moment>, geo: Geometry, calls: seq<Call>)
    requires geo.blockSize > 0
  {
    && (forall j :: 0 <= j < |ms| ==> Sane(ms[j].v, geo))
    && (forall j :: 0 <= j < |calls| ==> 0 < |calls[j].d| < geo.blockSize)
  }

  lemma {:induction false} SteadyOn(ms: seq<Moment>, geo: Geometry, ino: nat, calls: seq<Call>)
    requires geo.blockSize > 0 && Steady(ms, geo, calls) && Writes(ms, geo, ino, calls) && calls != []
    ensures |ms| == |calls| + 1 && Sane(ms[0].v, geo) && Sane(ms[1].v, geo) && 0 < |calls[0].d| < geo.blockSize
    ensures ms[0].pos <= ms[0].inode.size
    ensures Written(ms[0].v, ms[1].v, geo, ino, ms[0].inode, ms[1].inode, ms[0].pos, ms[1].pos, calls[0].d, calls[0].taken, calls[0].res)
    ensures Steady(ms[1..], geo, calls[1..]) && Writes(ms[1..], geo, ino, calls[1..])
    ensures Joined(calls) == calls[0].d + Joined(calls[1..])
  {
    hide Written, Sane;
  }

  /** One call: it may be made, and the next finds the file settled too. */
  lemma {:induction false} GoesOn(m: Moment, m': Moment, geo: Geometry, ino: nat, call: Call)
    requires geo.blockSize > 0 && Sane(m.v, geo) && Sane(m'.v, geo) && m.pos == m.inode.size
    requires Settled(m.v, ino, m.inode, geo.blockSize) && 0 < |call.d| < geo.blockSize
    requires m.inode.size + |call.d| <= Times(DIRECT, geo.blockSize) && geo.blockSize <= 0x8000
    requires CeilDiv(m.inode.size + |call.d|, geo.blockSize) <= CeilDiv(m.inode.size, geo.blockSize) + |m.v.blocks.free|
    requires Written(m.v, m'.v, geo, ino, m.inode, m'.inode, m.pos, m'.pos, call.d, call.taken, call.res)
    ensures Carried(m.v.data, m.inode, m.pos, |call.d|, geo.blockSize)
    ensures Settled(m'.v, ino, m'.inode, geo.blockSize) && m'.pos == m'.inode.size == m.inode.size + |call.d|
    ensures |m'.v.blocks.free| + CeilDiv(m'.inode.size, geo.blockSize) == |m.v.blocks.free| + CeilDiv(m.inode.size, geo.blockSize)
  {
    hide *;
    var bs := geo.blockSize;
    AtEndWritable(m.inode.size, |call.d|, bs);
    SettledMeans(m.v, ino, m.inode, bs);
    SettledReach(m.v, geo, m.inode, m.pos, |call.d|);
    AppendStep(m, m', geo, ino, call);
    WithinDirect(m'.inode, bs);
    WriteSettles(m.v, m'.v, geo, ino, m.inode, m'.inode, m.pos, call.d, call.taken);
  }

  /** In a run of writes at the end, each shorter than a block, that ends within the direct
      blocks and finds its space, every call finds the inode in memory as it is on the device
      and may be made. */
  lemma {:induction false} AppendsGoOn(ms: seq<Moment>, geo: Geometry, ino: nat, calls: seq<Call>, k: nat)
    requires geo.blockSize > 0 && Steady(ms, geo, calls) && Writes(ms, geo, ino, calls) && |ms| == |calls| + 1 && k <= |calls|
    requires ms[0].pos == ms[0].inode.size && Settled(ms[0].v, ino, ms[0].inode, geo.blockSize)
    requires var size := ms[0].inode.size + |Joined(calls)|;
             && size <= Times(DIRECT, geo.blockSize) && geo.blockSize <= 0x8000
             && CeilDiv(size, geo.blockSize) <= CeilDiv(ms[0].inode.size, geo.blockSize) + |ms[0].v.blocks.free|
    ensures Settled(ms[k].v, ino, ms[k].inode, geo.blockSize) && ms[k].pos == ms[k].inode.size
    ensures k < |calls| ==> Carried(ms[k].v.data, ms[k].inode, ms[k].pos, |calls[k].d|, geo.blockSize)
    decreases k
  {
    hide *;
    if calls != [] {
      SteadyOn(ms, geo, ino, calls);
      CeilMono(ms[0].inode.size + |calls[0].d|, ms[0].inode.size + |Joined(calls)|, geo.blockSize);
      GoesOn(ms[0], ms[1], geo, ino, calls[0]);
      if k > 0 {
        AppendsGoOn(ms[1..], geo, ino, calls[1..], k - 1);
      }
    }
  }

  lemma {:induction false} WithinDirect(inode: Inode, bs: nat)
    requires bs > 0 && inode.size <= Times(DIRECT, bs)
    ensures NBlocks(inode, bs) <= DIRECT
  {
    CeilUnique(Times(DIRECT, bs), DIRECT, bs);
    CeilMono(inode.size, Times(DIRECT, bs), bs);
  }
}
