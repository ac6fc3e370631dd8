/** Where things are on the device: geometry computed at mount time, object numbers,
    inode addresses, and the role each block plays. */
module Layout {
  import opened Arith
  import opened Bitmap
  import opened Bytes

  const SB_SIZE: nat := 1024
  const MAGIC: u16 := 0xEF53

  // Offsets of the superblock fields the driver uses.
  const SB_BLOCK_COUNT: nat := 4
  const SB_FREE_BLOCKS: nat := 12
  const SB_FREE_INODES: nat := 16
  const SB_BLOCK_SIZE_LOG: nat := 24
  const SB_GROUP_BLOCKS: nat := 32
  const SB_GROUP_INODES: nat := 40
  const SB_MAGIC: nat := 56
  const SB_VERSION_MAJOR: nat := 72
  const SB_FIRST_NON_RESERVED: nat := 80
  const SB_INODE_SIZE: nat := 84

  // Offsets of the fields of a 32-byte group descriptor.
  const GD_SIZE: nat := 32
  const GD_BLOCK_BITMAP: nat := 0
  const GD_INODE_BITMAP: nat := 4
  const GD_INODE_TABLE: nat := 8
  const GD_FREE_BLOCKS: nat := 12
  const GD_FREE_INODES: nat := 14

  /** The driver-specific fields that mounting computes. */
  datatype Geometry = Geometry(
    blockSize: nat, blockCount: nat, groupBlocks: nat, groupInodes: nat, inodeSize: nat,
    groups: nat, tableBlock: nat, tableBlocks: nat)

  /** x << k */
  function Shl(x: nat, k: nat): (r: nat)
    ensures r >= x
  {
    if k == 0 then x else 2 * Shl(x, k - 1)
  }

  /** Mounting fills in the fields a version-0 superblock lacks. */
  function Normalize(sb: seq<byte>): (r: seq<byte>)
    requires |sb| == SB_SIZE
    ensures |r| == SB_SIZE
  {
    if U32At(sb, SB_VERSION_MAJOR) == 0 then
      Put16(Put32(sb, SB_FIRST_NON_RESERVED, 11), SB_INODE_SIZE, 128)
    else sb
  }

  function GroupCount(blocks: nat, per: nat): nat
    requires per > 0
  {
    var whole := Quot(blocks, per);
    if Times(whole, per) < blocks then whole + 1 else whole
  }

  /** Whole blocks of 32-byte descriptors, and always one more; the product has 32 bits. */
  function TableSpan(groups: nat, bs: nat): nat
    requires bs > 0
  {
    Quot((GD_SIZE * groups) % U32_LIMIT, bs) + 1
  }

  /** The geometry of a normalized superblock. */
  function GeometryOf(sb: seq<byte>): Geometry
    requires |sb| == SB_SIZE && U32At(sb, SB_GROUP_BLOCKS) > 0
  {
    var blockSize := Shl(1024, U32At(sb, SB_BLOCK_SIZE_LOG));
    var groups := GroupCount(U32At(sb, SB_BLOCK_COUNT), U32At(sb, SB_GROUP_BLOCKS));
    Geometry(blockSize, U32At(sb, SB_BLOCK_COUNT), U32At(sb, SB_GROUP_BLOCKS),
             U32At(sb, SB_GROUP_INODES), U16At(sb, SB_INODE_SIZE), groups,
             if blockSize > 1024 then 1 else 2, TableSpan(groups, blockSize))
  }

  /** Device addresses fit 32 bits. */
  predicate Addressable(geo: Geometry) {
    Times(geo.blockCount, geo.blockSize) <= U32_LIMIT
  }

  /** What a block is for. */
  datatype Role =
    | Boot
    | Super
    | Table(i: nat)
    | BlockBitmap(g: nat)
    | InodeBitmap(g: nat)
    | InodeTable(g: nat, k: nat)
    | Data

  datatype Class = Header | Descriptors | Bitmaps | InodeTables | Contents

  function ClassOf(r: Role): Class {
    match r
    case Boot => Header
    case Super => Header
    case Table(_) => Descriptors
    case BlockBitmap(_) => Bitmaps
    case InodeBitmap(_) => Bitmaps
    case InodeTable(_, _) => InodeTables
    case Data => Contents
  }

  datatype Kind = Blocks | Inodes

  /** The geometry, the role of every block, per group the block numbers of the two
      bitmaps and the start of the inode table, and the length of one group's table. */
  datatype Plan = Plan(geo: Geometry, role: seq<Role>, bb: seq<nat>, ib: seq<nat>, it: seq<nat>, itBlocks: nat)
  {
    function SbBlock(): nat { if geo.blockSize == 1024 then 1 else 0 }

    function SbOff(): nat { if geo.blockSize == 1024 then 0 else 1024 }

    function Per(k: Kind): nat { if k.Blocks? then geo.groupBlocks else geo.groupInodes }

    function BitmapAt(k: Kind): seq<nat> { if k.Blocks? then bb else ib }

    ghost predicate SizesOk() {
      && 1024 <= geo.blockSize <= 0x8000 && geo.blockSize % 1024 == 0
      && 0 < geo.groupBlocks <= 0xFFFF && geo.groupBlocks <= 8 * geo.blockSize
      && 0 < geo.groupInodes <= 0xFFFF && geo.groupInodes <= 8 * geo.blockSize
      && 128 <= geo.inodeSize && Rem(geo.blockSize, geo.inodeSize) == 0
      && Times(geo.groups, geo.groupBlocks) < U32_LIMIT && Times(geo.groups, geo.groupInodes) < U32_LIMIT
      && Addressable(geo)
      && GD_SIZE * geo.groups <= Times(geo.tableBlocks, geo.blockSize)
      && itBlocks == CeilDiv(Times(geo.groupInodes, geo.inodeSize), geo.blockSize)
      && |role| == geo.blockCount && |bb| == |ib| == |it| == geo.groups
    }

    ghost predicate HasRole(b: nat, r: Role) {
      b < |role| && role[b] == r
    }

    /** Every piece of metadata sits in its own block, none in block 0. */
    ghost predicate Ok() {
      && SizesOk()
      && 0 < geo.tableBlock && geo.tableBlock + geo.tableBlocks <= geo.blockCount
      && HasRole(SbBlock(), Super) && role[0] != Data
      && (forall i: nat :: i < geo.tableBlocks ==> HasRole(geo.tableBlock + i, Table(i)))
      && (forall g: nat :: g < geo.groups ==> bb[g] != 0 && HasRole(bb[g], BlockBitmap(g)))
      && (forall g: nat :: g < geo.groups ==> ib[g] != 0 && HasRole(ib[g], InodeBitmap(g)))
      && (forall g: nat, k: nat :: g < geo.groups && k < itBlocks ==>
            it[g] + k != 0 && HasRole(it[g] + k, InodeTable(g, k)))
    }
  }

  /** The layouts of well-formed volumes (the witness is a volume with no groups). */
  type Layout = L: Plan | L.Ok()
    witness Plan(Geometry(1024, 2, 1, 1, 128, 0, 2, 0), [Boot, Super], [], [], [], 1)

  /** Mounting twice normalizes the same way. */
  lemma {:induction false} NormalizeIdempotent(sb: seq<byte>)
    requires |sb| == SB_SIZE
    ensures Normalize(Normalize(sb)) == Normalize(sb)
  {
    var r := Normalize(sb);
    assert U32At(r, SB_VERSION_MAJOR) == U32At(sb, SB_VERSION_MAJOR);
    if U32At(sb, SB_VERSION_MAJOR) == 0 {
      var s1 := Put32(sb, SB_FIRST_NON_RESERVED, 11);
      assert U32At(r, SB_FIRST_NON_RESERVED) == U32At(s1, SB_FIRST_NON_RESERVED) == 11;
      WordsFromBytes(r, SB_FIRST_NON_RESERVED);
      WordsFromBytes(r, SB_INODE_SIZE);
      assert Splice(r, SB_FIRST_NON_RESERVED, r[80..84]) == r;
      assert Splice(r, SB_INODE_SIZE, r[84..86]) == r;
    }
  }

  /** A normalized superblock stays so, and keeps its geometry, when a free total changes. */
  lemma {:induction false} TotalsKeepGeometry(sb: seq<byte>, off: nat, n: u32)
    requires |sb| == SB_SIZE && Normalize(sb) == sb && U32At(sb, SB_GROUP_BLOCKS) > 0
    requires off == SB_FREE_BLOCKS || off == SB_FREE_INODES
    ensures var r := Put32(sb, off, n);
            && Normalize(r) == r && U32At(r, SB_GROUP_BLOCKS) > 0
            && U16At(r, SB_MAGIC) == U16At(sb, SB_MAGIC) && GeometryOf(r) == GeometryOf(sb)
  {
    var r := Put32(sb, off, n);
    assert U32At(r, SB_VERSION_MAJOR) == U32At(sb, SB_VERSION_MAJOR);
    forall i | 0 <= i < SB_SIZE ensures Normalize(r)[i] == r[i] {
      assert Normalize(sb)[i] == sb[i];
    }
    assert Normalize(r) == r;
  }

  lemma {:induction false} GroupCountIsCeil(blocks: nat, per: nat)
    requires per > 0
    ensures GroupCount(blocks, per) == CeilDiv(blocks, per)
  {
    DivSplit(blocks, per);
    CeilUnique(blocks, GroupCount(blocks, per), per);
  }

  /** The span holds all descriptors if and only if the product does not wrap. */
  lemma {:induction false} TableSpanFits(groups: nat, bs: nat)
    requires 0 < bs < U32_LIMIT
    ensures GD_SIZE * groups <= Times(TableSpan(groups, bs), bs) <==> GD_SIZE * groups < U32_LIMIT
  {
    var size := GD_SIZE * groups;
    var r := size % U32_LIMIT;
    DivSplit(r, bs);
    assert Times(Quot(r, bs) + 1, bs) == bs + Times(Quot(r, bs), bs);
    if size >= U32_LIMIT {
      assert r <= size - U32_LIMIT;
    }
  }

  /** Shifts that stay within an int. */
  lemma {:induction false} ShlBound(k: nat)
    requires k <= 20
    ensures 1024 <= Shl(1024, k) <= 0x4000_0000
  {
    assert Shl(1024, 10) == 0x10_0000 && Shl(1024, 20) == 0x4000_0000;
    ShlMono(1024, k, 20);
  }

  lemma {:induction false} ShlMono(x: nat, k: nat, l: nat)
    requires k <= l
    ensures Shl(x, k) <= Shl(x, l)
  {
    if k < l {
      ShlMono(x, k, l - 1);
    }
  }

  lemma {:induction false} FewGroups(geo: Geometry)
    requires Addressable(geo) && geo.blockSize >= 1024 && geo.groupBlocks > 0 && geo.groups == CeilDiv(geo.blockCount, geo.groupBlocks)
    ensures GD_SIZE * geo.groups < U32_LIMIT
  {
    hide Times, Quot;
    var n, d := geo.blockCount, geo.groupBlocks;
    TimesGrows(n, 1024, geo.blockSize);
    TimesGrows(n, 1, d);
    TimesOne(n);
    TimesOne(d);
    TimesAdd(n, 1, d);
    TimesIsProduct(n, 1024);
    DivBound(n + d - 1, n + 1, d);
  }

  lemma {:induction false} ShlIsTimes(x: nat, k: nat)
    ensures Shl(x, k) == x * Weight(k)
  {
    if k > 0 {
      ShlIsTimes(x, k - 1);
    }
  }

  /** What mounting makes of a superblock's bytes: 1024 is doubled as often as the log says; the
      groups are as many as it takes to hold all blocks; the descriptor table begins with the
      first block behind the superblock's 1024 bytes at 1024; and without the fields of version 1
      inodes have 128 bytes and the first ten are reserved. */
  lemma {:induction false} GeometryMeans(sb: seq<byte>)
    requires |sb| == SB_SIZE && U32At(sb, 32) > 0
    ensures var r := Normalize(sb); var geo := GeometryOf(r);
            && geo.blockSize == 1024 * Weight(U32At(sb, 24))
            && geo.blockCount == U32At(sb, 4) && geo.groupBlocks == U32At(sb, 32) && geo.groupInodes == U32At(sb, 40)
            && Times(geo.groups, geo.groupBlocks) >= geo.blockCount
            && (geo.groups > 0 ==> Times(geo.groups - 1, geo.groupBlocks) < geo.blockCount)
            && geo.tableBlock > 0 && Times(geo.tableBlock - 1, geo.blockSize) < 1024 + 1024 <= Times(geo.tableBlock, geo.blockSize)
            && geo.inodeSize == (if U32At(sb, 72) == 0 then 128 else U16At(sb, 84))
            && U32At(r, 80) == (if U32At(sb, 72) == 0 then 11 else U32At(sb, 80))
  {
    var r := Normalize(sb);
    var geo := GeometryOf(r);
    NormalKeeps(sb);
    ShlIsTimes(1024, U32At(sb, 24));
    hide U32At, U16At, Quot, Normalize;
    DivSplit(geo.blockCount, geo.groupBlocks);
    var log := U32At(sb, 24);
    if log > 0 {
      assert Weight(log) == 2 * Weight(log - 1);
      TimesOne(geo.blockSize);
    } else {
      assert Times(2, 1024) == 2048 && Times(1, 1024) == 1024;
    }
  }

  lemma {:induction false} NormalKeeps(sb: seq<byte>)
    requires |sb| == SB_SIZE
    ensures var r := Normalize(sb);
            && U32At(r, 24) == U32At(sb, 24) && U32At(r, 4) == U32At(sb, 4) && U32At(r, 32) == U32At(sb, 32)
            && U32At(r, 40) == U32At(sb, 40)
            && U16At(r, 84) == (if U32At(sb, 72) == 0 then 128 else U16At(sb, 84))
            && U32At(r, 80) == (if U32At(sb, 72) == 0 then 11 else U32At(sb, 80))
  {
    var s1 := Put32(sb, SB_FIRST_NON_RESERVED, 11);
    assert U32At(s1, 80) == 11;
  }

  /** For a block size that an int can hold: the group count is ceil(blocks / group size); the
      descriptor table that is read has room for a 32-byte descriptor of each group if and
      only if 32 * groups fits 32 bits, as it does on every volume whose addresses do; and the
      table starts past the superblock's bytes. */
  lemma {:induction false} GeometryFits(sb: seq<byte>)
    requires |sb| == SB_SIZE && U32At(sb, SB_GROUP_BLOCKS) > 0 && U32At(sb, SB_BLOCK_SIZE_LOG) <= 20
    ensures var geo := GeometryOf(sb);
            && geo.groups == CeilDiv(geo.blockCount, geo.groupBlocks)
            && (GD_SIZE * geo.groups <= Times(geo.tableBlocks, geo.blockSize) <==> GD_SIZE * geo.groups < U32_LIMIT)
            && (Addressable(geo) ==> GD_SIZE * geo.groups < U32_LIMIT)
            && Times(geo.tableBlock, geo.blockSize) >= 1024 + SB_SIZE
  {
    var geo := GeometryOf(sb);
    hide U32At, U16At, GroupCount, TableSpan, Quot, Addressable;
    ShlBound(U32At(sb, SB_BLOCK_SIZE_LOG));
    GroupCountIsCeil(geo.blockCount, geo.groupBlocks);
    TableSpanFits(geo.groups, geo.blockSize);
    if Addressable(geo) {
      FewGroups(geo);
    }
    if geo.blockSize > 1024 {
      assert geo.blockSize == 2 * Shl(1024, U32At(sb, SB_BLOCK_SIZE_LOG) - 1);
      ShlMono(1024, 0, U32At(sb, SB_BLOCK_SIZE_LOG) - 1);
    }
  }

  /** A case in point: 2^27 groups, which 32 bits wrap to a table of one block. */
  lemma {:induction false} SpanWraps()
    ensures TableSpan(0x800_0000, 1024) == 1 && GD_SIZE * 0x800_0000 > Times(1, 1024)
  {
    assert (GD_SIZE * 0x800_0000) % U32_LIMIT == 0;
    assert Quot(0, 1024) == 0;
    TimesOne(1024);
  }

  /** The role of the block that holds entry idx of group g. */
  lemma {:induction false} SlotRole(L: Layout, g: nat, idx: nat)
    requires g < L.geo.groups && idx < L.geo.groupInodes
    ensures L.HasRole(L.it[g] + SlotBlock(L.geo, idx), InodeTable(g, SlotBlock(L.geo, idx)))
    ensures L.it[g] + SlotBlock(L.geo, idx) != 0
    ensures SlotOff(L.geo, idx) + L.geo.inodeSize <= L.geo.blockSize
  {
    SlotFits(L, idx);
  }

  lemma {:induction false} BitmapRole(L: Layout, k: Kind, g: nat)
    requires g < L.geo.groups
    ensures |L.BitmapAt(k)| == L.geo.groups && L.BitmapAt(k)[g] != 0
    ensures L.HasRole(L.BitmapAt(k)[g], if k.Blocks? then BlockBitmap(g) else InodeBitmap(g))
  {
  }

  lemma {:induction false} TableRole(L: Layout, i: nat)
    requires i < L.geo.tableBlocks
    ensures L.HasRole(L.geo.tableBlock + i, Table(i))
  {
  }

  lemma {:induction false} RoleCount(L: Layout)
    ensures |L.role| == L.geo.blockCount && |L.it| == L.geo.groups
    ensures L.HasRole(L.SbBlock(), Super) && L.geo.tableBlock + L.geo.tableBlocks <= L.geo.blockCount
    ensures 0 < L.geo.tableBlock && 1024 <= L.geo.blockSize
  {
  }

  // ---- inode addresses -------------------------------------------------------------

  /** Index of the table block that holds entry idx, and the offset in it. */
  function SlotBlock(geo: Geometry, idx: nat): nat
    requires geo.blockSize > 0
  {
    Quot(Times(idx, geo.inodeSize), geo.blockSize)
  }

  function SlotOff(geo: Geometry, idx: nat): nat
    requires geo.blockSize > 0
  {
    Rem(Times(idx, geo.inodeSize), geo.blockSize)
  }

  /** An entry never crosses a block and stays inside its group's table. */
  lemma {:induction false} SlotFits(L: Layout, idx: nat)
    requires idx < L.geo.groupInodes
    ensures SlotOff(L.geo, idx) + L.geo.inodeSize <= L.geo.blockSize
    ensures SlotBlock(L.geo, idx) < L.itBlocks
  {
    var bs, isz := L.geo.blockSize, L.geo.inodeSize;
    DivSplit(bs, isz);
    SlotInBlock(bs, isz, Quot(bs, isz), idx);
    CeilBounds(Times(L.geo.groupInodes, isz), bs);
    TimesMono(idx + 1, L.geo.groupInodes, isz);
    DivBound(Times(idx, isz), L.itBlocks, bs);
  }

  /** With per = bs / isz entries to a block, entry idx is slot idx % per of block idx / per. */
  lemma {:induction false} SlotInBlock(bs: nat, isz: nat, per: nat, idx: nat)
    requires isz > 0 && bs > 0 && bs == Times(per, isz)
    ensures per > 0
    ensures Quot(Times(idx, isz), bs) == Quot(idx, per)
    ensures Rem(Times(idx, isz), bs) == Times(Rem(idx, per), isz)
    ensures Times(Rem(idx, per), isz) + isz <= bs
  {
    var q, r := Quot(idx, per), Rem(idx, per);
    DivSplit(idx, per);
    TimesMono(r + 1, per, isz);
    TimesAdd(Times(q, per), r, isz);
    calc {
      Times(Times(q, per), isz);
      { TimesIsProduct(q, per); TimesIsProduct(Times(q, per), isz); TimesIsProduct(per, isz); TimesIsProduct(q, bs); }
      Times(q, bs);
    }
    DivUnique(Times(idx, isz), q, Times(r, isz), bs);
  }

  /** Blocks hold a whole number of entries. */
  lemma {:induction false} SlotsPer(L: Layout)
    ensures L.geo.blockSize > 0 && L.geo.inodeSize > 0
    ensures L.geo.blockSize == Times(Quot(L.geo.blockSize, L.geo.inodeSize), L.geo.inodeSize)
  {
    DivSplit(L.geo.blockSize, L.geo.inodeSize);
  }

  /** Distinct entries occupy disjoint bytes. */
  lemma {:induction false} SlotsDisjoint(L: Layout, i: nat, j: nat)
    requires i != j
    ensures || SlotBlock(L.geo, i) != SlotBlock(L.geo, j)
            || SlotOff(L.geo, i) + L.geo.inodeSize <= SlotOff(L.geo, j)
            || SlotOff(L.geo, j) + L.geo.inodeSize <= SlotOff(L.geo, i)
  {
    hide Plan.Ok, Times, Quot, Rem;
    SlotsPer(L);
    var bs, isz := L.geo.blockSize, L.geo.inodeSize;
    var per := Quot(bs, isz);
    SlotInBlock(bs, isz, per, i);
    SlotInBlock(bs, isz, per, j);
    DivSplit(i, per);
    DivSplit(j, per);
    if Rem(i, per) < Rem(j, per) {
      TimesMono(Rem(i, per) + 1, Rem(j, per), isz);
      TimesAdd(Rem(i, per), 1, isz);
      TimesOne(isz);
    } else if Rem(j, per) < Rem(i, per) {
      TimesMono(Rem(j, per) + 1, Rem(i, per), isz);
      TimesAdd(Rem(j, per), 1, isz);
      TimesOne(isz);
    }
  }
}
