/** A regular file as a byte sequence, and how reads, writes and truncation act on it. */
module Files {
  import opened Arith
  import opened Bytes
  import opened Dirents
  import opened DirBlocks
  import opened Layout
  import opened Inodes
  import opened State
  import opened Listings
  import opened Effects

  /** The k-th block's number: a direct pointer, or a word of the indirect block. */
  function BlockNo(data: Data, inode: Inode, k: nat): nat {
    if k < DIRECT then (if k < |inode.direct| then inode.direct[k] else 0)
    else if inode.l1 as nat in data && 4 * (k - DIRECT) + 4 <= |data[inode.l1 as nat]|
      then U32At(data[inode.l1 as nat], 4 * (k - DIRECT))
    else 0
  }

  /** Every block the size spans is there, at most one indirect block away. */
  ghost predicate FileShape(data: Data, inode: Inode, bs: nat)
    requires bs > 0
  {
    && |inode.direct| == DIRECT && NBlocks(inode, bs) <= DIRECT + bs / 4
    && (NBlocks(inode, bs) > DIRECT ==> inode.l1 as nat in data && |data[inode.l1 as nat]| == bs)
    && forall k: nat :: k < NBlocks(inode, bs) ==> BlockThere(data, BlockNo(data, inode, k), bs)
  }

  ghost predicate BlockThere(data: Data, b: nat, bs: nat) {
    b in data && |data[b]| == bs
  }

  /** Byte i of the block contents; 0 outside. */
  ghost function ByteAt(data: Data, inode: Inode, bs: nat, i: nat): byte
    requires bs > 0
  {
    var b := BlockNo(data, inode, Quot(i, bs));
    if b in data && Rem(i, bs) < |data[b]| then data[b][Rem(i, bs)] else 0
  }

  /** What the file says. */
  ghost function FileBytes(data: Data, inode: Inode, bs: nat): (r: seq<byte>)
    requires bs > 0
    ensures |r| == inode.size
    ensures forall i {:trigger r[i]} :: 0 <= i < inode.size ==> r[i] == ByteAt(data, inode, bs, i)
  {
    seq(inode.size, i requires 0 <= i < inode.size => ByteAt(data, inode, bs, i))
  }

  lemma {:induction false} InRange(inode: Inode, bs: nat, i: nat)
    requires bs > 0 && i < inode.size
    ensures Quot(i, bs) < NBlocks(inode, bs)
  {
    CeilBounds(inode.size, bs);
    DivBound(i, NBlocks(inode, bs), bs);
  }

  /** Blocks one after the other. */
  ghost function Joined(data: Data, nos: seq<u32>): seq<byte> {
    if nos == [] then [] else (if nos[0] as nat in data then data[nos[0] as nat] else []) + Joined(data, nos[1..])
  }

  lemma {:induction false} JoinedAt(data: Data, nos: seq<u32>, bs: nat, k: nat, r: nat)
    requires k < |nos| && r < bs && forall j :: 0 <= j < |nos| ==> BlockThere(data, nos[j], bs)
    ensures |Joined(data, nos)| == Times(|nos|, bs) && Times(k, bs) + r < Times(|nos|, bs) && BlockThere(data, nos[k], bs)
    ensures Joined(data, nos)[Times(k, bs) + r] == data[nos[k] as nat][r]
  {
    var rest := nos[1..];
    assert BlockThere(data, nos[0], bs);
    if k > 0 {
      JoinedAt(data, rest, bs, k - 1, r);
      assert rest[k - 1] == nos[k];
    } else if rest != [] {
      JoinedAt(data, rest, bs, 0, 0);
    }
  }

  lemma {:induction false} JoinedMore(data: Data, nos: seq<u32>, n: nat)
    requires n < |nos| && nos[n] as nat in data
    ensures Joined(data, nos[..n + 1]) == Joined(data, nos[..n]) + data[nos[n] as nat]
  {
    if n == 0 {
      assert nos[..1] == [nos[0]] && nos[..1][1..] == [];
    } else {
      assert nos[..n + 1][1..] == nos[1..][..n] && nos[..n][1..] == nos[1..][..n - 1];
      JoinedMore(data, nos[1..], n - 1);
    }
  }

  /** A directory lists the records that its blocks, one after the other, are tiled by. */
  lemma {:induction false} ListingIsRecords(data: Data, inode: Inode, bs: nat)
    requires bs > 0 && DirShape(data, inode, bs)
    ensures var all := Joined(data, inode.direct[..NBlocks(inode, bs)]);
            |all| == inode.size && Tiled(all, 0, |all|) && ListingOf(data, inode, bs) == Entries(all, 0, |all|)
  {
    PartsTiled(data, inode, bs, NBlocks(inode, bs));
  }

  lemma {:induction false} PartsTiled(data: Data, inode: Inode, bs: nat, n: nat)
    requires bs > 0 && DirShape(data, inode, bs) && n <= NBlocks(inode, bs)
    ensures n <= |inode.direct| && n <= |Parts(data, inode, bs)|
    ensures var all := Joined(data, inode.direct[..n]);
            |all| == Times(n, bs) && Tiled(all, 0, |all|) && Flat(Parts(data, inode, bs), n) == Entries(all, 0, |all|)
    decreases n
  {
    hide Tiled, Entries, NBlocks, DirShape, PartAt, Joined;
    NoBlocks(data);
    DirBlockOf(data, inode, bs, n);
    if n > 0 {
      PartsTiled(data, inode, bs, n - 1);
      var front, s := Joined(data, inode.direct[..n - 1]), data[inode.direct[n - 1] as nat];
      var all := front + s;
      JoinedMore(data, inode.direct, n - 1);
      TimesAdd(n - 1, 1, bs);
      TimesOne(bs);
      TiledWithin(front, all, 0, 0, |front|);
      TiledWithin(s, all, |front|, 0, |s|);
      TiledConcat(all, 0, |front|, |all|);
    } else {
      StartTiled([]);
    }
  }

  lemma {:induction false} NoBlocks(data: Data)
    ensures Joined(data, []) == []
  {
  }

  lemma {:induction false} DirBlockOf(data: Data, inode: Inode, bs: nat, n: nat)
    requires bs > 0 && DirShape(data, inode, bs) && n <= NBlocks(inode, bs)
    ensures n <= |inode.direct| && n <= |Parts(data, inode, bs)|
    ensures n > 0 ==>
              var b := inode.direct[n - 1] as nat;
              b in data && |data[b]| == bs && Tiled(data[b], 0, bs) && Parts(data, inode, bs)[n - 1] == Entries(data[b], 0, bs)
  {
    if n > 0 {
      assert BlockTiled(data, inode.direct[n - 1], bs);
    }
  }

  /** The indirect block holds the numbers ps. If all blocks the size spans are there, the file
      says what the blocks inode.direct + ps say one after the other, cut to the size. */
  lemma {:induction false} FileIsBlocks(data: Data, inode: Inode, bs: nat, ps: seq<u32>)
    requires bs > 0 && |inode.direct| == DIRECT && NBlocks(inode, bs) <= DIRECT + |ps|
    requires NBlocks(inode, bs) > DIRECT ==> inode.l1 as nat in data && data[inode.l1 as nat] == EncodeWords(ps)
    requires forall k :: 0 <= k < NBlocks(inode, bs) ==> BlockThere(data, (inode.direct + ps)[k], bs)
    ensures var all := Joined(data, (inode.direct + ps)[..NBlocks(inode, bs)]);
            inode.size as nat <= |all| && FileBytes(data, inode, bs) == all[..inode.size]
  {
    var n := NBlocks(inode, bs);
    var nos := (inode.direct + ps)[..n];
    CeilBounds(inode.size, bs);
    hide Joined, EncodeWords, NBlocks, FileBytes, Quot, Rem;
    if n > 0 {
      assert BlockThere(data, nos[0], bs);
      JoinedAt(data, nos, bs, 0, 0);
    }
    forall i | 0 <= i < inode.size ensures i < |Joined(data, nos)| && FileBytes(data, inode, bs)[i] == Joined(data, nos)[i] {
      var k := Quot(i, bs);
      InRange(inode, bs, i);
      DivSplit(i, bs);
      JoinedAt(data, nos, bs, k, Rem(i, bs));
      assert BlockNo(data, inode, k) == nos[k];
    }
  }

  // ---- reading -------------------------------------------------------------------------

  const SIZE_T: nat := 0x1_0000_0000_0000_0000

  /** How many bytes a read is to deliver. The difference is unsigned: behind the end of the
      file it wraps, and the count alone decides. */
  function ReadCount(size: nat, pos: nat, count: nat): nat {
    Min(if pos <= size then size - pos else if pos - size <= SIZE_T then SIZE_T - (pos - size) else 0, count)
  }

  /** Byte j of the caller's buffer after the copy loop, x before: the loop takes the first
      block from pos % bs on, but puts every later block at a multiple of the block size. */
  ghost function DeliveredAt(data: Data, inode: Inode, bs: nat, pos: nat, n: nat, j: nat, x: byte): byte
    requires bs > 0
  {
    if j < n && j + Rem(pos, bs) < bs then ByteAt(data, inode, bs, pos + j)
    else if j < n && j >= bs then ByteAt(data, inode, bs, Times(Quot(pos, bs), bs) + j)
    else x
  }

  ghost function Delivered(data: Data, inode: Inode, bs: nat, pos: nat, n: nat, was: seq<byte>): (r: seq<byte>)
    requires bs > 0
    ensures |r| == |was|
    ensures forall j {:trigger r[j]} :: 0 <= j < |was| ==> r[j] == DeliveredAt(data, inode, bs, pos, n, j, was[j])
  {
    seq(|was|, j requires 0 <= j < |was| => DeliveredAt(data, inode, bs, pos, n, j, was[j]))
  }

  /** A read is right when it starts on a block boundary or stays inside one block. */
  predicate ReadSafe(bs: nat, pos: nat, n: nat)
    requires bs > 0
  {
    Rem(pos, bs) == 0 || Rem(pos, bs) + n <= bs
  }

  /** Exactly then does the loop deliver the file's bytes whatever the buffer held. */
  lemma {:induction false} ReadExact(data: Data, inode: Inode, bs: nat, pos: nat, n: nat)
    requires bs > 0 && pos + n <= inode.size
    ensures ReadSafe(bs, pos, n) <==>
              forall was: seq<byte> :: |was| == n ==>
                Delivered(data, inode, bs, pos, n, was) == FileBytes(data, inode, bs)[pos..pos + n]
  {
    DivSplit(pos, bs);
    var want := FileBytes(data, inode, bs)[pos..pos + n];
    if ReadSafe(bs, pos, n) {
      forall was: seq<byte> | |was| == n ensures Delivered(data, inode, bs, pos, n, was) == want {
        forall j | 0 <= j < n ensures Delivered(data, inode, bs, pos, n, was)[j] == want[j] {
          assert FileBytes(data, inode, bs)[pos + j] == ByteAt(data, inode, bs, pos + j);
        }
      }
    } else {
      var j := bs - Rem(pos, bs);
      var wrong: byte := if want[j] == 0 then 1 else 0;
      var was := seq(n, i => wrong);
      assert |was| == n && Delivered(data, inode, bs, pos, n, was)[j] == wrong;
    }
  }

  // ---- writing -------------------------------------------------------------------------

  /** `s` with `d` put at pos, longer if need be. */
  function Patched(s: seq<byte>, pos: nat, d: seq<byte>): (r: seq<byte>)
    requires pos <= |s|
    ensures |r| == if pos + |d| > |s| then pos + |d| else |s|
    ensures forall i {:trigger r[i]} :: 0 <= i < |r| ==> r[i] == if pos <= i < pos + |d| then d[i - pos] else s[i]
  {
    seq(if pos + |d| > |s| then pos + |d| else |s|, i requires 0 <= i < (if pos + |d| > |s| then pos + |d| else |s|) =>
      if pos <= i < pos + |d| then d[i - pos] else s[i])
  }

  /** Bytes that go into blocks the file already has: the rest of the block at pos, if the
      last block is partly used. */
  function Fills(size: nat, pos: nat, count: nat, bs: nat): nat
    requires bs > 0
  {
    if Rem(size, bs) == 0 then 0 else Min(count, bs - Rem(pos, bs))
  }

  /** The size the driver records for a write that finds its space. */
  function SizeAfter(size: nat, pos: nat, count: nat, bs: nat): nat
    requires bs > 0
  {
    var fill := Fills(size, pos, count, bs);
    (if pos + fill > size then pos + fill else size) + (count - fill)
  }

  /** A write at the end of the file, or one that stays in the block it starts in, or one
      that starts in a partly used last block. */
  predicate WriteSafe(size: nat, pos: nat, count: nat, bs: nat)
    requires bs > 0
  {
    || count == 0
    || (Rem(size, bs) == 0 && pos == size)
    || (Rem(size, bs) != 0 && (count <= bs - Rem(pos, bs) || Quot(pos, bs) == Quot(size, bs)))
  }

  /** Exactly then is the recorded size the right one. */
  lemma {:induction false} WriteSizeExact(size: nat, pos: nat, count: nat, bs: nat)
    requires bs > 0 && pos <= size
    ensures WriteSafe(size, pos, count, bs) <==>
              SizeAfter(size, pos, count, bs) == if pos + count > size then pos + count else size
  {
    DivSplit(pos, bs);
    DivSplit(size, bs);
    if Quot(pos, bs) < Quot(size, bs) {
      TimesMono(Quot(pos, bs) + 1, Quot(size, bs), bs);
    } else if Quot(pos, bs) > Quot(size, bs) {
      TimesMono(Quot(size, bs) + 1, Quot(pos, bs), bs);
    }
  }

  lemma {:induction false} PatchedTwice(s: seq<byte>, pos: nat, d: seq<byte>, e: seq<byte>)
    requires pos <= |s|
    ensures Patched(Patched(s, pos, d), pos + |d|, e) == Patched(s, pos, d + e)
  {
  }

  lemma {:induction false} AppendPatches(s: seq<byte>, d: seq<byte>)
    ensures Patched(s, |s|, d) == s + d
  {
  }

  /** Bytes put into one block of the file. */
  lemma {:induction false} PatchBlock(data: Data, inode: Inode, bs: nat, pos: nat, d: seq<byte>)
    requires bs > 0 && FileShape(data, inode, bs) && NBlocks(inode, bs) <= DIRECT && NoRepeats(inode, bs)
    requires pos <= inode.size && Quot(pos, bs) < NBlocks(inode, bs) && Rem(pos, bs) + |d| <= bs
    requires pos + |d| < U32_LIMIT
    ensures var k := Quot(pos, bs); var b := inode.direct[k] as nat;
            && b in data && |data[b]| == bs
            && var data' := data[b := Splice(data[b], Rem(pos, bs), d)];
            var inode' := inode.(size := if pos + |d| > inode.size then pos + |d| else inode.size);
            FileBytes(data', inode', bs) == Patched(FileBytes(data, inode, bs), pos, d)
  {
    var k := Quot(pos, bs);
    var b := inode.direct[k] as nat;
    assert BlockThere(data, BlockNo(data, inode, k), bs);
    var data' := data[b := Splice(data[b], Rem(pos, bs), d)];
    var inode' := inode.(size := if pos + |d| > inode.size then pos + |d| else inode.size);
    forall i | 0 <= i < inode'.size ensures FileBytes(data', inode', bs)[i] == Patched(FileBytes(data, inode, bs), pos, d)[i] {
      PatchedByte(data, inode, bs, pos, d, i);
    }
  }

  lemma {:induction false} PatchedByte(data: Data, inode: Inode, bs: nat, pos: nat, d: seq<byte>, i: nat)
    requires bs > 0 && |inode.direct| == DIRECT && NBlocks(inode, bs) <= DIRECT && NoRepeats(inode, bs)
    requires pos <= inode.size && Quot(pos, bs) < NBlocks(inode, bs) && Rem(pos, bs) + |d| <= bs
    requires i < inode.size || i < pos + |d|
    requires var b := inode.direct[Quot(pos, bs)] as nat; b in data && |data[b]| == bs
    ensures var b := inode.direct[Quot(pos, bs)] as nat; var data' := data[b := Splice(data[b], Rem(pos, bs), d)];
            forall inode': Inode :: inode'.direct == inode.direct ==>
              ByteAt(data', inode', bs, i) == if pos <= i < pos + |d| then d[i - pos] else ByteAt(data, inode, bs, i)
  {
    DivSplit(pos, bs);
    DivSplit(i, bs);
    var k, j := Quot(pos, bs), Quot(i, bs);
    if j < k {
      TimesMono(j + 1, k, bs);
    } else if k < j {
      TimesMono(k + 1, j, bs);
      if i < inode.size {
        InRange(inode, bs, i);
      }
    }
    if i < inode.size {
      InRange(inode, bs, i);
    }
  }

  /** A block put behind a file that fills its blocks. */
  lemma {:induction false} AppendBlock(data: Data, inode: Inode, bs: nat, b: u32, s: seq<byte>, d: seq<byte>)
    requires bs > 0 && FileShape(data, inode, bs) && NBlocks(inode, bs) < DIRECT
    requires inode.size == Times(NBlocks(inode, bs), bs) && 0 < |d| <= bs && inode.size + |d| < U32_LIMIT
    requires |s| == bs && Sub(s, 0, |d|) == d
    requires forall k :: 0 <= k < NBlocks(inode, bs) ==> inode.direct[k] != b
    ensures var n := NBlocks(inode, bs);
            var inode' := inode.(size := inode.size + |d|, direct := inode.direct[n := b]);
            && FileBytes(data[b as nat := s], inode', bs) == FileBytes(data, inode, bs) + d
            && NBlocks(inode', bs) == n + 1
  {
    var n := NBlocks(inode, bs);
    var inode' := inode.(size := inode.size + |d|, direct := inode.direct[n := b]);
    assert Times(n + 1, bs) == bs + Times(n, bs);
    CeilUnique(inode'.size, n + 1, bs);
    var data' := data[b as nat := s];
    forall i | 0 <= i < inode'.size ensures FileBytes(data', inode', bs)[i] == (FileBytes(data, inode, bs) + d)[i] {
      if i < inode.size {
        InRange(inode, bs, i);
        assert BlockThere(data, BlockNo(data, inode, Quot(i, bs)), bs);
      } else {
        DivUnique(i, n, i - inode.size, bs);
        assert Sub(s, 0, |d|)[i - inode.size] == s[i - inode.size];
      }
    }
  }

  /** Dropping blocks from the end keeps the bytes before. */
  lemma {:induction false} PrefixBytes(data: Data, inode: Inode, inode': Inode, bs: nat)
    requires bs > 0 && FileShape(data, inode, bs) && NBlocks(inode, bs) <= DIRECT && inode'.size <= inode.size
    requires |inode'.direct| == DIRECT && forall k :: 0 <= k < NBlocks(inode', bs) && k < DIRECT ==> inode'.direct[k] == inode.direct[k]
    ensures FileBytes(data, inode', bs) == FileBytes(data, inode, bs)[..inode'.size]
  {
    CeilMono(inode'.size, inode.size, bs);
    forall i | 0 <= i < inode'.size ensures FileBytes(data, inode', bs)[i] == FileBytes(data, inode, bs)[i] {
      InRange(inode', bs, i);
    }
  }

  // ---- what a change of one file's blocks is -------------------------------------------

  /** Pointer k of the new inode is the old one, which was not given back, or, right behind
      the old ones, a block newly taken. */
  ghost predicate PointerOk(inode: Inode, inode': Inode, bs: nat, taken: set<nat>, given: set<nat>, k: nat)
    requires bs > 0 && k < |inode'.direct|
  {
    || (k < Span(inode, bs) && inode'.direct[k] == inode.direct[k] && inode'.direct[k] as nat !in given)
    || (k == Span(inode, bs) && inode'.direct[k] as nat in taken)
  }

  /** A pointer behind the file's blocks: 0, or as it was. */
  ghost predicate TailOk(inode: Inode, inode': Inode, bs: nat, k: nat)
    requires bs > 0 && k < |inode'.direct|
  {
    inode'.direct[k] == 0 || (Span(inode, bs) <= k < |inode.direct| && inode'.direct[k] == inode.direct[k])
  }

  /** File i's inode becomes inode'; only its blocks and those newly taken are written. */
  ghost predicate Changes(v: View, v': View, geo: Geometry, i: nat, inode': Inode, data': Data, taken: set<nat>, given: set<nat>)
    requires geo.blockSize > 0
  {
    && i in v.table && inode'.mode == v.table[i].mode && InodeOk(inode', geo.inodeSize)
    && taken <= v.blocks.free && given <= BlockSet(v.table[i], geo.blockSize)
    && data'.Keys == v.data.Keys
    && (forall b :: b in data' ==> |data'[b]| == geo.blockSize)
    && (forall b :: b in v.data && b !in BlockSet(v.table[i], geo.blockSize) && b !in taken ==> data'[b] == v.data[b])
    && (forall k :: 0 <= k < Span(inode', geo.blockSize) ==> PointerOk(v.table[i], inode', geo.blockSize, taken, given, k))
    && (forall k :: Span(inode', geo.blockSize) <= k < |inode'.direct| ==> TailOk(v.table[i], inode', geo.blockSize, k))
    && Becomes(v, v', geo, v.blocks.free - taken + given, v.inodes.free, v.table[i := inode'], data')
  }
}
