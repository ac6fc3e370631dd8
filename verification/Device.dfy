/** What the bytes of a whole device say about a volume, address by address: where the usage
    bits, the counters, the inodes and the data are, with the offsets the packed structures have. */
module Devices {
  import opened Arith
  import opened Bytes
  import opened Bitmap
  import opened Numbering
  import opened Layout
  import opened Inodes
  import opened State
  import opened Mounting

  /** The bytes of group g's descriptor, 32 of them, begin here. */
  function DescAt(geo: Geometry, g: nat): nat {
    Times(geo.tableBlock, geo.blockSize) + 32 * g
  }

  /** The bytes d are at `off`. */
  ghost predicate IsAt(s: seq<byte>, off: nat, d: seq<byte>) {
    off + |d| <= |s| && Sub(s, off, |d|) == d
  }

  lemma {:induction false} WordIn(s: seq<byte>, off: nat, n: nat, a: nat)
    requires off + n <= |s|
    ensures a + 4 <= n ==> U32At(s, off + a) == U32At(Sub(s, off, n), a)
    ensures a + 2 <= n ==> U16At(s, off + a) == U16At(Sub(s, off, n), a)
  {
  }

  lemma {:induction false} InTable(m: Image, v: View, g: nat)
    requires Rep(m, v) && g < m.L.geo.groups
    ensures |m.bgdt| == Times(m.L.geo.tableBlocks, m.L.geo.blockSize) && 32 * g + 32 <= |m.bgdt|
    ensures |m.L.bb| == |m.L.ib| == |m.L.it| == |v.blocks.counts| == |v.inodes.counts| == m.L.geo.groups
    ensures U32At(m.bgdt, 32 * g) == m.L.bb[g] && U32At(m.bgdt, 32 * g + 4) == m.L.ib[g] && U32At(m.bgdt, 32 * g + 8) == m.L.it[g]
    ensures U16At(m.bgdt, 32 * g + 12) == v.blocks.counts[g] && U16At(m.bgdt, 32 * g + 14) == v.inodes.counts[g]
  {
    hide TableOk, DataOk, Alloc.Ok, U32At, U16At, Times, Run, GeometryOf, Normalize;
    RemountRestores(m, v);
    assert PointerAt(m.bgdt, g, GD_BLOCK_BITMAP) == m.L.bb[g];
  }

  /** A descriptor's fields: the two bitmaps' blocks, the inode table's first block, and the
      two free counts. */
  lemma {:induction false} Descriptor(m: Image, v: View, g: nat)
    requires Rep(m, v) && g < m.L.geo.groups
    ensures var flat, at := Flat(m.disk), DescAt(m.L.geo, g);
            && at + 32 <= |flat| && |m.L.bb| == |m.L.ib| == |m.L.it| == |v.blocks.counts| == |v.inodes.counts| == m.L.geo.groups
            && U32At(flat, at) == m.L.bb[g] && U32At(flat, at + 4) == m.L.ib[g] && U32At(flat, at + 8) == m.L.it[g]
            && U16At(flat, at + 12) == v.blocks.counts[g] && U16At(flat, at + 14) == v.inodes.counts[g]
  {
    var flat, geo := Flat(m.disk), m.L.geo;
    var start, n, off := Times(geo.tableBlock, geo.blockSize), Times(geo.tableBlocks, geo.blockSize), 32 * g;
    hide Rep, U32At, U16At, Times, Flat, Sub, GeometryOf, Normalize;
    RemountRestores(m, v);
    InTable(m, v, g);
    WordIn(flat, start, n, off);
    WordIn(flat, start, n, off + 4);
    WordIn(flat, start, n, off + 8);
    WordIn(flat, start, n, off + 12);
    WordIn(flat, start, n, off + 14);
  }

  lemma {:induction false} BlockIsAt(m: Image, b: nat)
    requires b < |m.disk|
    ensures IsAt(Flat(m.disk), Times(b, m.L.geo.blockSize), m.disk[b])
  {
    hide Times, Flat, Sub, Plan.Ok;
    BlockAddress(m.disk, m.L.geo.blockSize, b);
  }

  /** The block the group's descriptor names, `at` bytes into the device, is the bitmap; and
      object i of the group is free if and only if bit i of it, counted on 64-bit words, is
      clear. */
  lemma {:induction false} FreeBit(m: Image, v: View, k: Kind, g: nat, i: nat)
    requires Rep(m, v) && g < m.L.geo.groups && i < m.L.Per(k)
    ensures DescAt(m.L.geo, g) + 32 <= |Flat(m.disk)| && |v.Of(k).maps| == m.L.geo.groups
    ensures var block := U32At(Flat(m.disk), DescAt(m.L.geo, g) + if k.Blocks? then 0 else 4);
            IsAt(Flat(m.disk), Times(block, m.L.geo.blockSize), v.Of(k).maps[g])
    ensures 8 * (i / 64) + 8 <= |v.Of(k).maps[g]|
    ensures Times(g, m.L.Per(k)) + i + 1 in v.Of(k).free <==> (Word(v.Of(k).maps[g], i / 64) / Weight(i % 64)) % 2 == 0
  {
    hide Rep, U32At, U16At, Times, Flat, Bit, Word, Weight, DescAt, View.Of, IsAt;
    Descriptor(m, v, g);
    MapOf(m, v, k, g, i);
    BlockIsAt(m, m.L.BitmapAt(k)[g]);
    WordBit(v.Of(k).maps[g], i / 64, i % 64);
  }

  /** What the view's bitmaps are and say. */
  lemma {:induction false} MapOf(m: Image, v: View, k: Kind, g: nat, i: nat)
    requires Rep(m, v) && g < m.L.geo.groups && i < m.L.Per(k)
    ensures |v.Of(k).maps| == |m.L.BitmapAt(k)| == m.L.geo.groups && m.L.BitmapAt(k)[g] < |m.disk|
    ensures v.Of(k).maps[g] == m.disk[m.L.BitmapAt(k)[g]] && |v.Of(k).maps[g]| == m.L.geo.blockSize
    ensures m.L.geo.blockSize % 8 == 0 && i < 8 * m.L.geo.blockSize
    ensures Times(g, m.L.Per(k)) + i + 1 in v.Of(k).free <==> !Bit(v.Of(k).maps[g], i)
  {
    hide MirrorOk, DescsOk, TableOk, DataOk, Bit, CountsOk, CountAt, TotalAt, Times, Clear;
    BitmapRole(m.L, k, g);
    assert Num(m.L.Per(k), g, i) == Times(g, m.L.Per(k)) + i + 1;
  }

  /** The superblock's totals are the numbers of free blocks and inodes. */
  lemma {:induction false} Totals(m: Image, v: View)
    requires Rep(m, v)
    ensures 2048 <= |Flat(m.disk)|
    ensures U32At(Flat(m.disk), 1024 + 12) == |v.blocks.free| && U32At(Flat(m.disk), 1024 + 16) == |v.inodes.free|
  {
    var flat := Flat(m.disk);
    hide U32At, U16At, Times, Flat, Sub, GeometryOf, Normalize, KindOk, TableOk, DataOk, DescsOk;
    RemountRestores(m, v);
    WordIn(flat, 1024, 1024, 12);
    WordIn(flat, 1024, 1024, 16);
    TotalsOf(m, v);
    NormalTotals(Sub(flat, 1024, 1024));
  }

  lemma {:induction false} TotalsOf(m: Image, v: View)
    requires Rep(m, v)
    ensures U32At(m.sb, 12) == |v.blocks.free| && U32At(m.sb, 16) == |v.inodes.free|
  {
    hide U32At, TableOk, DataOk, DescsOk, MirrorOk, Alloc.Ok;
  }

  lemma {:induction false} NormalTotals(sb: seq<byte>)
    requires |sb| == SB_SIZE
    ensures U32At(Normalize(sb), 12) == U32At(sb, 12) && U32At(Normalize(sb), 16) == U32At(sb, 16)
  {
  }

  /** The bytes d are those of inode n. */
  ghost predicate Coded(table: map<nat, Inode>, n: nat, d: seq<byte>) {
    n in table && |table[n].misc| == 32 && |table[n].direct| == DIRECT && d == Encode(table[n])
  }

  /** Inode n's bytes are at `off`. */
  ghost predicate CodedAt(s: seq<byte>, off: nat, size: nat, table: map<nat, Inode>, n: nat) {
    off + size <= |s| && Coded(table, n, Sub(s, off, size))
  }

  /** Inode i of group g is the i-th entry, of the inode size each, of the table that the
      group's descriptor names. */
  lemma {:induction false} InodeBytes(m: Image, v: View, g: nat, i: nat)
    requires Rep(m, v) && g < m.L.geo.groups && i < m.L.geo.groupInodes
    ensures DescAt(m.L.geo, g) + 32 <= |Flat(m.disk)|
    ensures CodedAt(Flat(m.disk), Times(U32At(Flat(m.disk), DescAt(m.L.geo, g) + 8), m.L.geo.blockSize) + Times(i, m.L.geo.inodeSize),
                    m.L.geo.inodeSize, v.table, Times(g, m.L.geo.groupInodes) + i + 1)
  {
    hide *;
    Descriptor(m, v, g);
    TableEntry(m, v, g, i);
  }

  lemma {:induction false} TableEntry(m: Image, v: View, g: nat, i: nat)
    requires Rep(m, v) && g < m.L.geo.groups && i < m.L.geo.groupInodes
    ensures |m.L.it| == m.L.geo.groups
    ensures CodedAt(Flat(m.disk), Times(m.L.it[g], m.L.geo.blockSize) + Times(i, m.L.geo.inodeSize),
                    m.L.geo.inodeSize, v.table, Times(g, m.L.geo.groupInodes) + i + 1)
  {
    hide *;
    var b, off := SlotAddress(m, v, g, i);
    BlockIsAt(m, b);
    PartIsAt(Flat(m.disk), Times(b, m.L.geo.blockSize), m.disk[b], off, m.L.geo.inodeSize);
    ItIsCoded(Flat(m.disk), Times(b, m.L.geo.blockSize) + off, Sub(m.disk[b], off, m.L.geo.inodeSize), v.table,
              Times(g, m.L.geo.groupInodes) + i + 1);
  }

  lemma {:induction false} ItIsCoded(s: seq<byte>, off: nat, d: seq<byte>, table: map<nat, Inode>, n: nat)
    requires IsAt(s, off, d) && Coded(table, n, d)
    ensures CodedAt(s, off, |d|, table, n)
  {
  }

  lemma {:induction false} PartIsAt(s: seq<byte>, at: nat, d: seq<byte>, off: nat, n: nat)
    requires IsAt(s, at, d) && off + n <= |d|
    ensures IsAt(s, at + off, Sub(d, off, n))
  {
    forall i | 0 <= i < n ensures s[at + off + i] == Sub(d, off, n)[i] {
      assert Sub(s, at, |d|)[off + i] == d[off + i];
    }
  }

  lemma {:induction false} SlotSplit(L: Layout, g: nat, i: nat)
    requires g < L.geo.groups && g < |L.it| && L.geo.blockSize > 0
    ensures Times(L.it[g] + SlotBlock(L.geo, i), L.geo.blockSize) + SlotOff(L.geo, i)
         == Times(L.it[g], L.geo.blockSize) + Times(i, L.geo.inodeSize)
  {
    hide Plan.Ok, Times, Quot, Rem;
    TimesAdd(L.it[g], SlotBlock(L.geo, i), L.geo.blockSize);
    DivSplit(Times(i, L.geo.inodeSize), L.geo.blockSize);
  }

  /** Block and offset of an entry of the inode table. */
  lemma {:induction false} SlotAddress(m: Image, v: View, g: nat, i: nat) returns (b: nat, off: nat)
    requires Rep(m, v) && g < m.L.geo.groups && i < m.L.geo.groupInodes
    ensures |m.L.it| == m.L.geo.groups && b < |m.disk| && |m.disk[b]| == m.L.geo.blockSize && off + m.L.geo.inodeSize <= m.L.geo.blockSize
    ensures Times(b, m.L.geo.blockSize) + off == Times(m.L.it[g], m.L.geo.blockSize) + Times(i, m.L.geo.inodeSize)
    ensures Coded(v.table, Times(g, m.L.geo.groupInodes) + i + 1, Sub(m.disk[b], off, m.L.geo.inodeSize))
  {
    hide MirrorOk, DescsOk, KindOk, DataOk, Times, Decode, Encode, SlotBlock, SlotOff;
    b, off := m.L.it[g] + SlotBlock(m.L.geo, i), SlotOff(m.L.geo, i);
    SlotRole(m.L, g, i);
    RoleCount(m.L);
    SlotSplit(m.L, g, i);
    assert Num(m.L.geo.groupInodes, g, i) == Times(g, m.L.geo.groupInodes) + i + 1;
    assert v.table[Num(m.L.geo.groupInodes, g, i)] == Decode(Slot(m, g, i));
    EncodeDecode(Slot(m, g, i));
  }

  /** A data block's contents are its bytes. */
  lemma {:induction false} DataBytes(m: Image, v: View, b: nat)
    requires Rep(m, v) && b in v.data
    ensures IsAt(Flat(m.disk), Times(b, m.L.geo.blockSize), v.data[b])
  {
    RoleCount(m.L);
    BlockIsAt(m, b);
    hide MirrorOk, DescsOk, KindOk, TableOk;
  }
}
