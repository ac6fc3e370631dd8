/** Volumes written out byte by byte: clean ones exist, and the failing cases do come about. */
module Examples {
  import opened Arith
  import opened Bytes
  import opened Bitmap
  import opened Numbering
  import opened Layout
  import opened Inodes
  import opened State
  import opened Dirents
  import opened DirBlocks
  import opened Listings
  import opened Names
  import opened Effects
  import opened Files
  import opened Fsck
  import opened FsckDirs
  import opened VnodeWrite
  import opened VnodeUnlink
  import opened VnodeTrunc
  import opened Aheads
  import Overlong
  import opened Fresh

  // ---- a volume of nine blocks of 1024 bytes ------------------------------------------------

  const BS: nat := 1024
  const DIR_BLOCK: u32 := 6

  ghost function SmallGeo(): Geometry {
    Geometry(BS, 9, 9, 8, 128, 1, 2, 1)
  }

  /** Boot block, superblock, descriptor table, the two bitmaps, the inode table of eight
      inodes, the root directory's block, a block in use and one that is free. */
  ghost function SmallPlan(): Plan {
    Plan(SmallGeo(),
         [Boot, Super, Table(0), BlockBitmap(0), InodeBitmap(0), InodeTable(0, 0), Role.Data, Role.Data, Role.Data], [3], [4], [5], 1)
  }

  lemma {:induction false} Sizes()
    ensures Times(8, 128) == 1024 && Rem(1024, 128) == 0 && Times(1, 8) == 8 && Times(1, 9) == 9 && Times(9, 1024) == 9216
    ensures CeilDiv(1024, 1024) == 1 && Times(1, 1024) == 1024 && Quot(9, 9) == 1 && Quot(32, 1024) == 0
    ensures CeilDiv(Times(8, 128), 1024) == 1
  {
    TimesIsProduct(8, 128);
    TimesIsProduct(1, 8);
    TimesIsProduct(1, 9);
    TimesIsProduct(9, 1024);
    TimesIsProduct(1, 1024);
    QuotIsDivision(1024, 128);
    QuotIsDivision(2047, 1024);
    QuotIsDivision(9, 9);
    QuotIsDivision(32, 1024);
  }

  lemma {:induction false} SmallRoles()
    ensures |SmallPlan().role| == 9
    ensures SmallPlan().HasRole(1, Super) && SmallPlan().HasRole(2, Table(0)) && SmallPlan().HasRole(3, BlockBitmap(0))
    ensures SmallPlan().HasRole(4, InodeBitmap(0)) && SmallPlan().HasRole(5, InodeTable(0, 0)) && SmallPlan().role[0] == Boot
  {
  }

  lemma {:induction false} SmallPlanOk()
    ensures SmallPlan().Ok()
  {
    Sizes();
    SmallRoles();
    hide Times, Quot, Rem, CeilDiv;
  }

  ghost function SmallLayout(): Layout {
    SmallPlanOk();
    SmallPlan()
  }

  /** Its superblock: nine blocks and eight inodes, one of each free. */
  ghost function SmallSuper(): (r: seq<byte>)
    ensures |r| == SB_SIZE
  {
    var s1 := Put32(Put32(Put32(Zeros(SB_SIZE), SB_BLOCK_COUNT, 9), SB_FREE_BLOCKS, 1), SB_FREE_INODES, 1);
    var s2 := Put32(Put32(s1, SB_GROUP_BLOCKS, 9), SB_GROUP_INODES, 8);
    Put16(Put32(Put16(s2, SB_MAGIC, MAGIC), SB_VERSION_MAJOR, 1), SB_INODE_SIZE, 128)
  }

  /** The words apart from the one that was put. */
  lemma {:induction false} Put32Keeps(s: seq<byte>, off: nat, v: u32)
    requires off + 4 <= |s|
    ensures forall a: nat {:trigger U32At(Put32(s, off, v), a)} :: a + 4 <= |s| && (a + 4 <= off || off + 4 <= a) ==>
              U32At(Put32(s, off, v), a) == U32At(s, a)
    ensures forall a: nat {:trigger U16At(Put32(s, off, v), a)} :: a + 2 <= |s| && (a + 2 <= off || off + 4 <= a) ==>
              U16At(Put32(s, off, v), a) == U16At(s, a)
  {
    hide Put32;
  }

  lemma {:induction false} Put16Keeps(s: seq<byte>, off: nat, v: u16)
    requires off + 2 <= |s|
    ensures forall a: nat {:trigger U32At(Put16(s, off, v), a)} :: a + 4 <= |s| && (a + 4 <= off || off + 2 <= a) ==>
              U32At(Put16(s, off, v), a) == U32At(s, a)
    ensures forall a: nat {:trigger U16At(Put16(s, off, v), a)} :: a + 2 <= |s| && (a + 2 <= off || off + 2 <= a) ==>
              U16At(Put16(s, off, v), a) == U16At(s, a)
  {
    hide Put16;
  }

  lemma {:induction false} ZeroWord(n: nat, off: nat)
    requires off + 4 <= n
    ensures U32At(Zeros(n), off) == 0
  {
  }

  lemma {:induction false} SuperFields()
    ensures var s := SmallSuper();
            && U32At(s, SB_BLOCK_COUNT) == 9 && U32At(s, SB_FREE_BLOCKS) == 1 && U32At(s, SB_FREE_INODES) == 1
            && U32At(s, SB_BLOCK_SIZE_LOG) == 0 && U32At(s, SB_GROUP_BLOCKS) == 9 && U32At(s, SB_GROUP_INODES) == 8
            && U16At(s, SB_MAGIC) == MAGIC && U32At(s, SB_VERSION_MAJOR) == 1 && U16At(s, SB_INODE_SIZE) == 128
  {
    hide U32At, U16At, Put32, Put16, Zeros;
    var z := Zeros(SB_SIZE);
    var s1 := Put32(z, SB_BLOCK_COUNT, 9);
    var s2 := Put32(s1, SB_FREE_BLOCKS, 1);
    var s3 := Put32(s2, SB_FREE_INODES, 1);
    var s4 := Put32(s3, SB_GROUP_BLOCKS, 9);
    var s5 := Put32(s4, SB_GROUP_INODES, 8);
    var s6 := Put16(s5, SB_MAGIC, MAGIC);
    var s7 := Put32(s6, SB_VERSION_MAJOR, 1);
    ZeroWord(SB_SIZE, SB_BLOCK_SIZE_LOG);
    Put32Keeps(z, SB_BLOCK_COUNT, 9);
    Put32Keeps(s1, SB_FREE_BLOCKS, 1);
    Put32Keeps(s2, SB_FREE_INODES, 1);
    Put32Keeps(s3, SB_GROUP_BLOCKS, 9);
    Put32Keeps(s4, SB_GROUP_INODES, 8);
    Put16Keeps(s5, SB_MAGIC, MAGIC);
    Put32Keeps(s6, SB_VERSION_MAJOR, 1);
    Put16Keeps(s7, SB_INODE_SIZE, 128);
  }

  ghost function SmallTable(): (r: seq<byte>)
    ensures |r| == BS
  {
    Put16(Put16(Put32(Put32(Put32(Zeros(BS), GD_BLOCK_BITMAP, 3), GD_INODE_BITMAP, 4), GD_INODE_TABLE, 5), GD_FREE_BLOCKS, 1), GD_FREE_INODES, 1)
  }

  lemma {:induction false} TableFields()
    ensures var s := SmallTable();
            && U32At(s, GD_BLOCK_BITMAP) == 3 && U32At(s, GD_INODE_BITMAP) == 4 && U32At(s, GD_INODE_TABLE) == 5
            && U16At(s, GD_FREE_BLOCKS) == 1 && U16At(s, GD_FREE_INODES) == 1
  {
    hide U32At, U16At, Put32, Put16, Zeros;
    var s1 := Put32(Zeros(BS), GD_BLOCK_BITMAP, 3);
    var s2 := Put32(s1, GD_INODE_BITMAP, 4);
    var s3 := Put32(s2, GD_INODE_TABLE, 5);
    var s4 := Put16(s3, GD_FREE_BLOCKS, 1);
    Put32Keeps(s1, GD_INODE_BITMAP, 4);
    Put32Keeps(s2, GD_INODE_TABLE, 5);
    Put16Keeps(s3, GD_FREE_BLOCKS, 1);
    Put16Keeps(s4, GD_FREE_INODES, 1);
  }

  /** All of a block's bits set. */
  function Ones(n: nat): (r: seq<byte>)
    ensures |r| == n && forall i :: 0 <= i < n ==> r[i] == 255
  {
    seq(n, _ => 255)
  }

  lemma {:induction false} OnesOk(per: nat)
    requires 0 < per <= 8 * BS
    ensures Alloc([Ones(BS)], [0], {}).Ok(per)
  {
    hide Weight, NatBit;
    ByteWeight();
    var m := Ones(BS);
    forall i: nat | i < 8 * BS ensures Bit(m, i) {
      FullBit(8, i % 8);
    }
    assert Clear(m) == 0;
  }

  /** One group of objects of which only the n-th is free. */
  ghost function OneFree(n: nat): Alloc
    requires 1 <= n <= 8
  {
    Alloc([ClearBit(Ones(BS), n - 1)], [1], {n})
  }

  lemma {:induction false} OneFreeOk(n: nat, per: nat)
    requires 1 <= n <= 8 && n <= per <= 8 * BS
    ensures OneFree(n).Ok(per)
  {
    hide Bit, BitsOk, CountsOk;
    OnesOk(per);
    var a := Alloc([Ones(BS)], [0], {});
    assert Times(0, per) == 0 && Num(per, 0, n - 1) == n;
    GiveOk(a, per, 0, n - 1);
    assert a.maps[0 := ClearBit(a.maps[0], n - 1)] == [ClearBit(Ones(BS), n - 1)] && a.counts[0 := 0 + 1] == [1] && a.free + {n} == {n};
  }

  ghost function RootInodeOf(): (i: Inode)
    ensures InodeOk(i, 128) && IsDir(i) && i.size == BS && i.direct[0] == DIR_BLOCK
  {
    Inode(0x41ED, 0, BS, Zeros(32), [DIR_BLOCK] + seq(11, _ => 0), 0, Zeros(36))
  }

  // Its bytes mean what they should, whatever the table's block and the root's say.

  type Block = s: seq<byte> | |s| == BS
    witness Zeros(BS)

  ghost function SmallDisk(nodes: Block, root: Block): (d: seq<seq<byte>>)
    ensures |d| == 9 && forall b :: 0 <= b < 9 ==> |d[b]| == BS
  {
    [Zeros(BS), SmallSuper(), SmallTable(), OneFree(8).maps[0], OneFree(4).maps[0], nodes, root, Zeros(BS), Zeros(BS)]
  }

  ghost function SmallImage(nodes: Block, root: Block): Image {
    SmallPlanOk();
    Bytes3(SmallLayout(), SmallSuper(), SmallTable(), SmallDisk(nodes, root))
  }

  ghost function InodeAt(nodes: Block, i: nat): Inode {
    if 1 <= i <= 8 then Decode(Sub(nodes, 128 * (i - 1), 128)) else RootInodeOf()
  }

  ghost function SmallView(nodes: Block, root: Block): View {
    View(OneFree(8), OneFree(4), map i: nat | 1 <= i <= 8 :: InodeAt(nodes, i), map[6 := root, 7 := Zeros(BS), 8 := Zeros(BS)])
  }

  lemma {:induction false} SmallMirror(nodes: Block, root: Block)
    ensures MirrorOk(SmallImage(nodes, root))
  {
    var m := SmallImage(nodes, root);
    hide SmallSuper, SmallTable, OneFree, U32At, U16At, Quot, Times;
    SuperFields();
    Sizes();
    assert m.disk == SmallDisk(nodes, root) && m.sb == SmallSuper() && m.bgdt == SmallTable();
    assert SbBytes(m) == m.sb;
    assert Run(m.disk, 2, 0) == [] && Run(m.disk, 2, 1) == m.bgdt;
    assert Shl(1024, 0) == 1024;
  }

  lemma {:induction false} SmallDescs(nodes: Block, root: Block)
    ensures DescsOk(SmallImage(nodes, root))
    ensures forall k: Kind :: CountAt(SmallTable(), 0, k) == 1
  {
    TableFields();
    hide SmallTable, SmallDisk, SmallSuper, U32At, U16At;
  }

  lemma {:induction false} SmallBlocks(nodes: Block, root: Block)
    ensures KindOk(SmallImage(nodes, root), OneFree(8), Blocks)
  {
    hide SmallTable, SmallSuper, Alloc.Ok, ClearBit, Ones, U32At, CountAt;
    SuperFields();
    SmallDescs(nodes, root);
    OneFreeOk(8, 9);
    assert SmallDisk(nodes, root)[3] == OneFree(8).maps[0];
  }

  lemma {:induction false} SmallNodes(nodes: Block, root: Block)
    ensures KindOk(SmallImage(nodes, root), OneFree(4), Kind.Inodes)
  {
    hide SmallTable, SmallSuper, Alloc.Ok, ClearBit, Ones, U32At, CountAt;
    SuperFields();
    SmallDescs(nodes, root);
    OneFreeOk(4, 8);
    assert SmallDisk(nodes, root)[4] == OneFree(4).maps[0];
  }

  lemma {:induction false} SlotNumbers(i: nat)
    requires i < 8
    ensures Num(8, 0, i) == i + 1
    ensures SlotBlock(SmallGeo(), i) == 0 && SlotOff(SmallGeo(), i) == 128 * i
  {
    hide Times, Quot, Rem;
    TimesIsProduct(0, 8);
    TimesIsProduct(i, 128);
    QuotIsDivision(Times(i, 128), 1024);
  }

  lemma {:induction false} SmallSlot(nodes: Block, root: Block, i: nat)
    requires i < 8
    ensures Num(8, 0, i) == i + 1
    ensures Slot(SmallImage(nodes, root), 0, i) == Sub(nodes, 128 * i, 128)
  {
    hide SmallTable, SmallSuper, OneFree, SlotBlock, SlotOff, Num, Plan.Ok;
    SlotNumbers(i);
    assert SmallDisk(nodes, root)[5] == nodes;
  }

  lemma {:induction false} SmallTableOk(nodes: Block, root: Block)
    ensures TableOk(SmallImage(nodes, root), SmallView(nodes, root).table)
  {
    var m, t := SmallImage(nodes, root), SmallView(nodes, root).table;
    hide SmallTable, SmallSuper, OneFree, Slot, Decode, Num;
    Sizes();
    forall g: nat, i: nat | g < 1 && i < 8 ensures Num(8, g, i) in t && t[Num(8, g, i)] == Decode(Slot(m, g, i)) {
      SmallSlot(nodes, root, i);
    }
  }

  lemma {:induction false} SmallData(nodes: Block, root: Block)
    ensures DataOk(SmallImage(nodes, root), SmallView(nodes, root).data, {8})
  {
    hide SmallTable, SmallSuper, ClearBit, Ones, OneFree, Decode, InodeAt;
    var L := SmallPlan();
    forall b | 0 <= b < 9 ensures L.HasRole(b, Role.Data) <==> b == 6 || b == 7 || b == 8 {
    }
  }

  lemma {:induction false} SmallRep(nodes: Block, root: Block)
    ensures Rep(SmallImage(nodes, root), SmallView(nodes, root)) && Sane(SmallView(nodes, root), SmallGeo())
  {
    var m, v := SmallImage(nodes, root), SmallView(nodes, root);
    hide MirrorOk, DescsOk, KindOk, TableOk, DataOk, ClearBit, SmallTable, SmallSuper, Decode, Sane;
    SmallMirror(nodes, root);
    SmallDescs(nodes, root);
    SmallBlocks(nodes, root);
    SmallNodes(nodes, root);
    SmallTableOk(nodes, root);
    SmallData(nodes, root);
    RepSane(m, v);
  }

  // ---- with nothing but the root directory --------------------------------------------------

  /** The inode table's block: the root's inode is the second. */
  ghost function RootNodes(): Block {
    Splice(Zeros(BS), 128, Encode(RootInodeOf()))
  }

  lemma {:induction false} RootAt()
    ensures InodeAt(RootNodes(), ROOT) == RootInodeOf()
  {
    hide Encode, Decode;
    assert Sub(RootNodes(), 128, 128) == Encode(RootInodeOf());
    DecodeEncode(RootInodeOf());
  }

  ghost function RootBlock(): Block {
    DirBlocks.Written(DirBlocks.Written(Zeros(BS), 0, 12, Entry(ROOT, DOT)), 12, BS - 12, Entry(ROOT, DOTDOT))
  }

  lemma {:induction false} RootBlockIs()
    ensures Tiled(RootBlock(), 0, BS) && Entries(RootBlock(), 0, BS) == [Entry(ROOT, DOT), Entry(ROOT, DOTDOT)]
    ensures Tiled(RootBlock(), 0, 12) && Entries(RootBlock(), 0, 12) == [Entry(ROOT, DOT)]
    ensures RecordIs(RootBlock(), 12, BS - 12, Entry(ROOT, DOTDOT))
  {
    hide DirBlocks.Written, Tiled, Entries, RecordIs, SameOutside;
    var s := Zeros(BS);
    var s1 := DirBlocks.Written(s, 0, 12, Entry(ROOT, DOT));
    WrittenIs(s, 0, 12, Entry(ROOT, DOT));
    WrittenIs(s1, 12, BS - 12, Entry(ROOT, DOTDOT));
    OutsideMore(s1, RootBlock(), 12, 12 + HEADER + 2, BS);
    TwoRecords(s1, RootBlock(), 12, Entry(ROOT, DOT), Entry(ROOT, DOTDOT));
    OneRecord(s1, 0, 12, Entry(ROOT, DOT));
    OutsideAgrees(s1, RootBlock(), 12, BS);
  }

  lemma {:induction false} OutsideMore(s: seq<byte>, t: seq<byte>, a: nat, b: nat, c: nat)
    requires SameOutside(s, t, a, b) && b <= c
    ensures SameOutside(s, t, a, c)
  {
  }

  lemma {:induction false} OutsideAgrees(s: seq<byte>, t: seq<byte>, a: nat, b: nat)
    requires SameOutside(s, t, a, b) && Tiled(s, 0, a)
    ensures Tiled(t, 0, a) && Entries(t, 0, a) == Entries(s, 0, a)
  {
    hide Tiled, Entries;
    TiledAgree(s, t, 0, a);
  }

  lemma {:induction false} SmallEmpty()
    requires Sane(SmallView(RootNodes(), RootBlock()), SmallGeo())
    ensures Empty(SmallView(RootNodes(), RootBlock()), SmallGeo(), DIR_BLOCK)
  {
    hide Sane, Tiled, Entries, RootBlock, ClearBit, Decode, RootInodeOf, RootNodes;
    RootAt();
    RootBlockIs();
  }

  /** There are clean volumes: these bytes mean a file system that is in order, with one
      directory, a free block (8) and a free inode (4); block 7 and inode 3 are lost. */
  lemma {:induction false} CleanExists()
    ensures TreeOf(SmallView(RootNodes(), RootBlock()), BS, {ROOT}) == map[ROOT := {Entry(ROOT, DOT), Entry(ROOT, DOTDOT)}]
    ensures Rep(SmallImage(RootNodes(), RootBlock()), SmallView(RootNodes(), RootBlock()))
    ensures Ok(SmallView(RootNodes(), RootBlock()), SmallGeo(), RootOnly(DIR_BLOCK))
  {
    hide Rep, Sane, Tiled, Entries, RootBlock, Ok, ListingOf, Content, Decode, ClearBit, SmallView, SmallImage, RootNodes;
    SmallRep(RootNodes(), RootBlock());
    SmallEmpty();
    EmptyIsClean(SmallView(RootNodes(), RootBlock()), SmallGeo(), DIR_BLOCK);
  }

  // ---- with a file of one full block --------------------------------------------------------

  const FILE: nat := 3
  const A: Name := [97]

  ghost function FileInodeOf(): (i: Inode)
    ensures InodeOk(i, 128) && IsReg(i) && !IsDir(i) && i.size == BS && i.direct[0] == 7 && ZeroFrom(i, 1)
  {
    Inode(0x81A4, 0, BS, Zeros(32), [7] + seq(11, _ => 0), 0, Zeros(36))
  }

  ghost function FileNodes(): Block {
    Splice(RootNodes(), 256, Encode(FileInodeOf()))
  }

  lemma {:induction false} FileAt()
    ensures InodeAt(FileNodes(), FILE) == FileInodeOf() && InodeAt(FileNodes(), ROOT) == RootInodeOf()
  {
    hide Encode, Decode;
    assert Sub(FileNodes(), 256, 128) == Encode(FileInodeOf());
    assert Sub(FileNodes(), 128, 128) == Encode(RootInodeOf());
    DecodeEncode(FileInodeOf());
    DecodeEncode(RootInodeOf());
  }

  /** The record of ".." was split, as creat does. */
  ghost function FileBlock(): (s: Block)
    ensures Tiled(s, 0, BS) && Entries(s, 0, BS) == [Entry(ROOT, DOT), Entry(ROOT, DOTDOT), Entry(FILE, A)]
  {
    FileBlockIs();
    Split(RootBlock(), 12, 12, Entry(FILE, A))
  }

  lemma {:induction false} FileBlockIs()
    ensures 12 + HEADER <= BS && RecLen(RootBlock(), 12) == BS - 12
    ensures var s := Split(RootBlock(), 12, 12, Entry(FILE, A));
            |s| == BS && Tiled(s, 0, BS) && Entries(s, 0, BS) == [Entry(ROOT, DOT), Entry(ROOT, DOTDOT), Entry(FILE, A)]
  {
    var s := RootBlock();
    hide Tiled, Entries, RootBlock, Split, EntryAt;
    RootBlockIs();
    RecordEntry(s, 12, BS - 12, Entry(ROOT, DOTDOT));
    NothingLeft(s);
    SplitTiles(s, 12, 12, Entry(FILE, A));
    assert [Entry(ROOT, DOT)] + ([Entry(ROOT, DOTDOT)] + [Entry(FILE, A)]) + []
        == [Entry(ROOT, DOT), Entry(ROOT, DOTDOT), Entry(FILE, A)];
  }

  lemma {:induction false} RecordEntry(s: seq<byte>, off: nat, len: nat, e: Entry)
    requires RecordIs(s, off, len, e) && Aligned(len) && HEADER + |e.name| <= len && off + len <= |s| && e.ino != 0
    ensures RecordOk(s, off, |s|) && EntryAt(s, off) == e && NameLen(s, off) == |e.name| && RecLen(s, off) == len
  {
  }

  lemma {:induction false} NothingLeft(s: Block)
    ensures Tiled(s, BS, BS) && Entries(s, BS, BS) == []
  {
  }

  ghost function FileView(): View {
    SmallView(FileNodes(), FileBlock())
  }

  ghost function FileCatalog(): Catalog {
    Catalog(map[6 := Place(ROOT, 0), 7 := Place(FILE, 0)], map[FILE := Home(ROOT, Entry(FILE, A), 1)])
  }

  lemma {:induction false} FileViewIs()
    ensures var v := FileView();
            && ROOT in v.table && v.table[ROOT] == RootInodeOf() && FILE in v.table && v.table[FILE] == FileInodeOf()
            && v.blocks == OneFree(8) && v.inodes == OneFree(4)
            && v.data == map[6 := FileBlock(), 7 := Zeros(BS), 8 := Zeros(BS)]
  {
    hide OneFree, Decode, FileNodes, FileBlock, RootInodeOf, FileInodeOf;
    FileAt();
  }

  /** A directory of one block with these entries. */
  lemma {:induction false} OneBlockDir(v: View, bs: nat, o: Owners, x: nat, nb: u32, es: seq<Entry>)
    requires bs > 0 && x in v.table && x !in v.inodes.free
    requires var node := v.table[x]; IsDir(node) && |node.direct| == DIRECT && node.size == bs && node.direct[0] == nb
    requires nb as nat in v.data && nb !in v.blocks.free && nb as nat in o && o[nb as nat] == Place(x, 0)
    requires var s := v.data[nb as nat]; |s| == bs && Tiled(s, 0, |s|) && Entries(s, 0, |s|) == es
    requires Unique(es) && es != [] && es[0].name == DOT
    ensures Holds(v, bs, o, x) && ListingOf(v.data, v.table[x], bs) == es
  {
    var node := v.table[x];
    SpanOne(node, bs);
    var ds := Parts(v.data, node, bs);
    assert ds[0] == PartAt(v.data, nb) == es;
    assert Flat(ds, 0) == [] && Flat(ds, 1) == [] + ds[0] == ds[0];
    assert BlockTiled(v.data, nb, bs);
    assert OwnedAt(v, o, nb, x, 0);
  }

  lemma {:induction false} RootHolds()
    ensures Holds(FileView(), BS, FileCatalog().owner, ROOT)
    ensures ListingOf(FileView().data, FileView().table[ROOT], BS) == [Entry(ROOT, DOT), Entry(ROOT, DOTDOT), Entry(FILE, A)]
  {
    hide OneFree, RootInodeOf, FileInodeOf, FileBlock, FileView, Tiled, Entries, Holds, ListingOf;
    FileViewIs();
    FreeIs();
    LettersDiffer();
    OneBlockDir(FileView(), BS, FileCatalog().owner, ROOT, DIR_BLOCK, [Entry(ROOT, DOT), Entry(ROOT, DOTDOT), Entry(FILE, A)]);
  }

  lemma {:induction false} FreeIs()
    ensures OneFree(8).free == {8} && OneFree(4).free == {4} && FILE == 3 && ROOT == 2
  {
  }

  lemma {:induction false} LettersDiffer()
    ensures A != DOT && A != DOTDOT && DOT != DOTDOT
  {
    assert A[0] == 97 && DOT[0] == 46 && DOTDOT[0] == 46 && |DOT| != |DOTDOT|;
  }

  lemma {:induction false} OneBlockFile(v: View, bs: nat, o: Owners, x: nat, b: u32)
    requires bs > 0 && x in v.table && x !in v.inodes.free
    requires var node := v.table[x]; !IsDir(node) && node.size == bs && ZeroFrom(node, 1) && node.direct[0] == b
    requires b as nat in v.data && b !in v.blocks.free && b as nat in o && o[b as nat] == Place(x, 0)
    ensures Holds(v, bs, o, x)
  {
    SpanOne(v.table[x], bs);
    assert OwnedAt(v, o, b, x, 0);
  }

  lemma {:induction false} FileFields()
    ensures var i := FileInodeOf(); !IsDir(i) && i.size == BS && ZeroFrom(i, 1) && |i.direct| == DIRECT && i.direct[0] == 7 && i.direct[1] == 0
    ensures BS == 1024
  {
  }

  lemma {:induction false} FileOwner()
    ensures var o := FileCatalog().owner; 7 in o && o[7] == Place(FILE, 0)
  {
  }

  lemma {:induction false} FileHolds()
    ensures Holds(FileView(), BS, FileCatalog().owner, FILE) && !IsDir(FileView().table[FILE])
  {
    hide *;
    FileViewIs();
    FreeIs();
    FileFields();
    FileOwner();
    OneBlockFile(FileView(), BS, FileCatalog().owner, FILE, 7);
  }

  ghost function FileEntries(): seq<Entry> {
    [Entry(ROOT, DOT), Entry(ROOT, DOTDOT), Entry(FILE, A)]
  }

  lemma {:induction false} RootIsDir()
    ensures IsDir(RootInodeOf()) && BS > 0
    ensures FileEntries() == [Entry(ROOT, DOT), Entry(ROOT, DOTDOT), Entry(FILE, A)]
  {
  }

  lemma {:induction false} TreeIs(v: View, bs: nat, es: seq<Entry>)
    requires bs > 0 && ROOT in v.table && IsDir(v.table[ROOT]) && FILE in v.table && !IsDir(v.table[FILE])
    requires ListingOf(v.data, v.table[ROOT], bs) == es
    ensures TreeOf(v, bs, {ROOT, FILE}) == map[ROOT := Content(es)]
  {
    hide ListingOf, IsDir, Content;
  }

  lemma {:induction false} NamesIs(t: Tree)
    requires t == map[ROOT := Content(FileEntries())]
    ensures NamesOk(t, FileCatalog().home, ROOT)
  {
    var es := FileEntries();
    assert Content(es) == {es[0], es[1], es[2]};
    hide Content;
    LettersDiffer();
  }

  lemma {:induction false} FileTree()
    ensures NamesOk(TreeOf(FileView(), BS, {ROOT, FILE}), FileCatalog().home, ROOT)
  {
    hide *;
    FileViewIs();
    RootHolds();
    FileHolds();
    RootIsDir();
    TreeIs(FileView(), BS, FileEntries());
    NamesIs(TreeOf(FileView(), BS, {ROOT, FILE}));
  }

  lemma {:induction false} FileOk(v: View)
    requires Sane(v, SmallGeo()) && Holds(v, BS, FileCatalog().owner, ROOT) && Holds(v, BS, FileCatalog().owner, FILE)
    requires NamesOk(TreeOf(v, BS, {ROOT, FILE}), FileCatalog().home, ROOT)
    ensures Ok(v, SmallGeo(), FileCatalog())
  {
    hide Sane, Holds, NamesOk, TreeOf;
    assert FileCatalog().Live() == {ROOT, FILE};
  }

  lemma {:induction false} FileViewMeans()
    ensures FileView() == SmallView(FileNodes(), FileBlock())
  {
  }

  /** A clean volume, as bytes: the root directory holds one file, "a", of one full block. */
  lemma {:induction false} FileVolume()
    ensures Rep(SmallImage(FileNodes(), FileBlock()), FileView())
    ensures Ok(FileView(), SmallGeo(), FileCatalog())
  {
    hide *;
    SmallRep(FileNodes(), FileBlock());
    FileViewMeans();
    RootHolds();
    FileHolds();
    FileTree();
    FileOk(FileView());
  }

  // ---- ten bytes that found no space, and again ---------------------------------------------

  /** The file's inode in memory after a write of ten bytes that ran out of space. */
  ghost function LongInode(): Inode {
    FileInodeOf().(size := 1034)
  }

  lemma {:induction false} OneBlockOwned(v: View, inode: Inode, bs: nat, b: u32)
    requires bs > 0 && |inode.direct| == DIRECT && NBlocks(inode, bs) == 1 && inode.direct[0] == b
    requires b as nat in v.data && b !in v.blocks.free
    ensures OwnBlocks(v, inode, bs)
  {
    hide NBlocks;
  }

  lemma {:induction false} FileOwns()
    ensures OwnBlocks(FileView(), FileInodeOf(), BS)
  {
    hide *;
    FileViewIs();
    FileFields();
    FreeIs();
    TwoSizes();
    OneBlockOwned(FileView(), FileInodeOf(), BS, 7);
  }

  lemma {:induction false} LongIsAhead()
    ensures FILE in FileView().table && Ahead(FileView(), FILE, LongInode(), BS)
  {
    hide OneFree, RootInodeOf, FileInodeOf, FileBlock, FileView, OwnBlocks, NBlocks;
    FileViewIs();
    FileFields();
    TwoSizes();
    FileOwns();
  }

  lemma {:induction false} TwoSizes()
    ensures NBlocks(FileInodeOf(), 1024) == 1 && NBlocks(LongInode(), 1024) == 2
    ensures Quot(1024, 1024) == 1 && Rem(1034, 1024) == 10 && Rem(1024, 1024) == 0
  {
    QuotIsDivision(1024, 1024);
    QuotIsDivision(1034, 1024);
    QuotIsDivision(2047, 1024);
    QuotIsDivision(2057, 1024);
  }

  /** What writing the ten bytes d again, at 1024, makes of the volume. */
  ghost function RetriedInode(): Inode {
    FileInodeOf().(size := 1044, direct := FileInodeOf().direct[2 := 8])
  }

  ghost function RetriedView(d: seq<byte>): View
    requires |d| == 10
  {
    var v := FileView();
    View(v.blocks.Take(9, 8), v.inodes, v.table[FILE := RetriedInode()], v.data[8 := Splice(Zeros(BS), 0, d)])
  }

  lemma {:induction false} RetriedBecomes(d: seq<byte>)
    requires |d| == 10
    ensures Becomes(FileView(), RetriedView(d), SmallGeo(), FileView().blocks.free - {8}, FileView().inodes.free,
                    FileView().table[FILE := RetriedInode()], FileView().data[8 := Splice(Zeros(BS), 0, d)])
  {
    hide OneFree, RootInodeOf, FileInodeOf, RetriedInode, FileBlock, FileView, Alloc.Take, Alloc.Ok, Splice, Zeros;
    FileViewIs();
    FreeIs();
    OneFreeOk(8, 9);
    OneFreeOk(4, 8);
    TakeMoves(OneFree(8), 9, 8);
  }

  lemma {:induction false} RetriedBehind(d: seq<byte>)
    requires |d| == 10
    ensures PutsBehind(FileView(), RetriedView(d), SmallGeo(), FILE, LongInode(), RetriedInode(), 2, 8, d)
  {
    hide OneFree, RootInodeOf, FileInodeOf, FileBlock, FileView, Becomes, RetriedView;
    FileViewIs();
    FreeIs();
    FileFields();
    RetriedBecomes(d);
    RetriedIs(d);
  }

  lemma {:induction false} RetriedIs(d: seq<byte>)
    requires |d| == 10
    ensures RetriedView(d).data == FileView().data[8 := Splice(Zeros(BS), 0, d)] && Sub(Splice(Zeros(BS), 0, d), 0, 10) == d
    ensures LongInode() == FileInodeOf().(size := 1034) && RetriedInode() == FileInodeOf().(size := 1044, direct := FileInodeOf().direct[2 := 8])
  {
    hide FileInodeOf, FileView;
  }

  lemma {:induction false} NoneReached()
    ensures Reached(LongInode(), 1024, 10, 1024) == 0 && NextIndex(1034, 1024, 1024) == 2 && LongInode().size == 1034
    ensures LongInode().(size := 1034) == LongInode()
  {
    hide FileInodeOf, Quot, Rem;
    FileFields();
    TwoSizes();
  }

  /** A write whose first part reached nothing. */
  lemma {:induction false} AllBehind(v: View, v': View, geo: Geometry, ino: nat, inode: Inode, inode': Inode, pos: nat, d: seq<byte>, no: nat)
    requires geo.blockSize > 0 && pos <= inode.size && d != [] && v.blocks.free != {}
    requires Reached(inode, pos, |d|, geo.blockSize) == 0
    requires PutsBehind(v, v', geo, ino, inode, inode', NextIndex(inode.size, pos, geo.blockSize), no, d)
    ensures DidWrite(v, v', geo, ino, inode, inode', pos, pos + |d|, d, {no}, |d|)
  {
    hide Reached, NextIndex, PutsBehind;
    assert d[0..] == d;
    assert inode.(size := Max(pos + 0, inode.size)) == inode;
  }

  lemma {:induction false} Retried(d: seq<byte>)
    requires |d| == 10
    ensures DidWrite(FileView(), RetriedView(d), SmallGeo(), FILE, LongInode(), RetriedInode(), 1024, 1034, d, {8}, 10)
  {
    hide *;
    FileViewIs();
    FreeIs();
    FileFields();
    NoneReached();
    RetrySizes();
    RetriedBehind(d);
    AllBehind(FileView(), RetriedView(d), SmallGeo(), FILE, LongInode(), RetriedInode(), 1024, d, 8);
  }

  lemma {:induction false} RetrySizes()
    ensures SmallGeo().blockSize == 1024 && LongInode().size == 1034 && FILE in FileCatalog().Live()
  {
    hide FileInodeOf;
  }

  /** The retry of Aheads.RetryHarms comes about: from a clean volume with the file's inode
      ahead, the write goes through, reports ten bytes, and no catalog makes the volume clean. */
  lemma {:induction false} RetryHappens(d: seq<byte>)
    requires |d| == 10
    ensures Ok(FileView(), SmallGeo(), FileCatalog())
    ensures FILE in FileView().table && Ahead(FileView(), FILE, LongInode(), 1024) && WriteSafe(1034, 1024, 10, 1024)
    ensures DidWrite(FileView(), RetriedView(d), SmallGeo(), FILE, LongInode(), RetriedInode(), 1024, 1034, d, {8}, 10)
    ensures !StillUsable(RetriedView(d), SmallGeo(), FILE)
  {
    hide *;
    FreeIs();
    FileFields();
    FileVolume();
    LongIsAhead();
    Retried(d);
    FileViewIs();
    FileHolds();
    RetrySizes();
    RetryHarms(FileView(), RetriedView(d), SmallGeo(), FileCatalog(), FILE, LongInode(), RetriedInode(), 1034, d, {8}, 10);
  }

  // ---- a truncate to (size_t) -1 ------------------------------------------------------------

  /** The file's inode afterwards. */
  ghost function CutInode(): Inode {
    FileInodeOf().(size := 0xFFFF_FFFF, direct := ZeroedFrom(FileInodeOf().direct, 0, 1))
  }

  ghost function CutView(): View {
    var v := FileView();
    View(v.blocks.Give(9, 7), v.inodes, v.table[FILE := CutInode()], v.data)
  }

  lemma {:induction false} CutBecomes()
    ensures Becomes(FileView(), CutView(), SmallGeo(), FileView().blocks.free + BlocksFrom(FileInodeOf(), 0, 1), FileView().inodes.free,
                    FileView().table[FILE := CutInode()], FileView().data)
  {
    hide OneFree, RootInodeOf, FileInodeOf, CutInode, FileBlock, FileView, Alloc.Give, Alloc.Ok;
    FileViewIs();
    FreeIs();
    FileFields();
    OneFreeOk(8, 9);
    OneFreeOk(4, 8);
    OneMap();
    GiveMoves(OneFree(8), 9, 7);
    assert BlocksFrom(FileInodeOf(), 0, 1) == {7};
  }

  lemma {:induction false} OneMap()
    ensures |OneFree(8).maps| == 1 && Times(1, 9) == 9
  {
    Sizes();
  }

  lemma {:induction false} CutHappens()
    ensures DidTruncate(FileView(), CutView(), SmallGeo(), FILE, FileInodeOf(), CutInode(), SIZE_T - 1, 0)
  {
    hide FileInodeOf, FileView, CutView, NBlocks, BlocksFor, Becomes, ZeroedFrom;
    FileFields();
    TwoSizes();
    BlocksForIs(SIZE_T - 1, 1024);
    CutBecomes();
  }

  /** The truncate of Overlong.TruncateHarms comes about: it reports success, and no catalog
      makes the volume clean. */
  lemma {:induction false} TruncateHappens()
    ensures Ok(FileView(), SmallGeo(), FileCatalog())
    ensures DidTruncate(FileView(), CutView(), SmallGeo(), FILE, FileInodeOf(), CutInode(), SIZE_T - 1, 0)
    ensures !StillUsable(CutView(), SmallGeo(), FILE)
  {
    hide *;
    FreeIs();
    FileFields();
    FileVolume();
    FileViewIs();
    FileHolds();
    RetrySizes();
    CutHappens();
    Overlong.TruncateHarms(FileView(), CutView(), SmallGeo(), FileCatalog(), FILE, CutInode(), 0);
  }
}
