/** A mounted volume's bytes (superblock and descriptor table in memory, blocks on the
    device), what they stand for, and how single-block writes change what they stand for. */
module State {
  import opened Arith
  import opened Bytes
  import opened Numbering
  import opened Layout
  import opened Inodes

  /** The meaning of an image: what is free, the inode table, and the contents of the
      data blocks. */
  datatype View = View(blocks: Alloc, inodes: Alloc, table: map<nat, Inode>, data: map<nat, seq<byte>>)
  {
    function Of(k: Kind): Alloc { if k.Blocks? then blocks else inodes }

    function With(k: Kind, a: Alloc): View {
      if k.Blocks? then this.(blocks := a) else this.(inodes := a)
    }
  }

  function CountOff(k: Kind): nat { if k.Blocks? then GD_FREE_BLOCKS else GD_FREE_INODES }

  function BitmapOff(k: Kind): nat { if k.Blocks? then GD_BLOCK_BITMAP else GD_INODE_BITMAP }

  function TotalOff(k: Kind): nat { if k.Blocks? then SB_FREE_BLOCKS else SB_FREE_INODES }

  /** The free count of group g in the descriptor table. */
  function CountAt(bgdt: seq<byte>, g: nat, k: Kind): u16
    requires GD_SIZE * g + GD_SIZE <= |bgdt|
  {
    U16At(bgdt, GD_SIZE * g + CountOff(k))
  }

  function PutCount(bgdt: seq<byte>, g: nat, k: Kind, n: u16): (r: seq<byte>)
    requires GD_SIZE * g + GD_SIZE <= |bgdt|
    ensures |r| == |bgdt| && CountAt(r, g, k) == n
  {
    Put16(bgdt, GD_SIZE * g + CountOff(k), n)
  }

  /** The block pointer at offset off of group g's descriptor. */
  function PointerAt(bgdt: seq<byte>, g: nat, off: nat): u32
    requires GD_SIZE * g + GD_SIZE <= |bgdt| && off <= GD_INODE_TABLE
  {
    U32At(bgdt, GD_SIZE * g + off)
  }

  lemma {:induction false} PutCountFrame(bgdt: seq<byte>, g: nat, k: Kind, n: u16, h: nat)
    requires GD_SIZE * g + GD_SIZE <= |bgdt| && GD_SIZE * h + GD_SIZE <= |bgdt|
    ensures forall j: Kind :: CountAt(PutCount(bgdt, g, k, n), h, j) == if j == k && h == g then n else CountAt(bgdt, h, j)
    ensures forall off: nat :: off <= GD_INODE_TABLE ==> PointerAt(PutCount(bgdt, g, k, n), h, off) == PointerAt(bgdt, h, off)
  {
  }

  function TotalAt(sb: seq<byte>, k: Kind): u32
    requires |sb| == SB_SIZE
  {
    U32At(sb, TotalOff(k))
  }

  /** The in-memory superblock and descriptor table, and the blocks on the device. */
  datatype Bytes3 = Bytes3(L: Layout, sb: seq<byte>, bgdt: seq<byte>, disk: seq<seq<byte>>)

  ghost predicate DiskOk(L: Layout, disk: seq<seq<byte>>) {
    |disk| == L.geo.blockCount && forall b :: 0 <= b < |disk| ==> |disk[b]| == L.geo.blockSize
  }

  type Image = m: Bytes3 | DiskOk(m.L, m.disk) && |m.sb| == SB_SIZE && GD_SIZE * m.L.geo.groups <= |m.bgdt|
    ghost witness EmptyImage()

  ghost function EmptyImage(): (m: Bytes3)
    ensures DiskOk(m.L, m.disk) && |m.sb| == SB_SIZE && GD_SIZE * m.L.geo.groups <= |m.bgdt|
  {
    var L: Layout := Plan(Geometry(1024, 2, 1, 1, 128, 0, 2, 0), [Boot, Super], [], [], [], 1);
    Bytes3(L, Zeros(SB_SIZE), [], [Zeros(1024), Zeros(1024)])
  }

  /** The superblock's copy on the device. */
  function SbBytes(m: Image): (r: seq<byte>)
    ensures |r| == SB_SIZE
  {
    Sub(m.disk[m.L.SbBlock()], m.L.SbOff(), SB_SIZE)
  }

  /** The n blocks from `lo` on as one run of bytes. */
  function Run(disk: seq<seq<byte>>, lo: nat, n: nat): seq<byte>
    requires lo + n <= |disk|
  {
    if n == 0 then [] else Run(disk, lo, n - 1) + disk[lo + n - 1]
  }

  /** The descriptor table's copy on the device. */
  function TableBytes(m: Image): seq<byte> {
    Run(m.disk, m.L.geo.tableBlock, m.L.geo.tableBlocks)
  }

  /** Memory and device agree, and mounting this superblock gives this geometry. */
  ghost predicate MirrorOk(m: Image) {
    && m.sb == Normalize(SbBytes(m))
    && m.bgdt == TableBytes(m)
    && U16At(m.sb, SB_MAGIC) == MAGIC && U32At(m.sb, SB_GROUP_BLOCKS) > 0 && m.L.geo == GeometryOf(m.sb)
  }

  /** The block pointers of the group descriptors. */
  ghost predicate DescsOk(m: Image) {
    forall g: nat :: g < m.L.geo.groups ==>
      && PointerAt(m.bgdt, g, GD_BLOCK_BITMAP) == m.L.bb[g]
      && PointerAt(m.bgdt, g, GD_INODE_BITMAP) == m.L.ib[g]
      && PointerAt(m.bgdt, g, GD_INODE_TABLE) == m.L.it[g]
  }

  /** Bitmaps, group counts and superblock total of one kind of object agree. */
  ghost predicate KindOk(m: Image, a: Alloc, k: Kind) {
    && |a.maps| == |a.counts| == m.L.geo.groups
    && (forall g: nat :: g < m.L.geo.groups ==>
          m.L.BitmapAt(k)[g] < |m.disk| && a.maps[g] == m.disk[m.L.BitmapAt(k)[g]])
    && (forall g: nat :: g < m.L.geo.groups ==> a.counts[g] == CountAt(m.bgdt, g, k))
    && TotalAt(m.sb, k) == |a.free|
    && a.Ok(m.L.Per(k))
  }

  ghost predicate IsInode(L: Layout, ino: nat) {
    1 <= ino <= Times(L.geo.groups, L.geo.groupInodes)
  }

  /** The bytes of inode table entry idx of group g. */
  ghost function Slot(m: Image, g: nat, idx: nat): (r: seq<byte>)
    requires g < m.L.geo.groups && idx < m.L.geo.groupInodes
    ensures |r| == m.L.geo.inodeSize
  {
    SlotRole(m.L, g, idx);
    var off := SlotOff(m.L.geo, idx);
    Sub(m.disk[m.L.it[g] + SlotBlock(m.L.geo, idx)], off, m.L.geo.inodeSize)
  }

  ghost predicate TableOk(m: Image, table: map<nat, Inode>) {
    && (forall ino :: ino in table <==> IsInode(m.L, ino))
    && (forall g: nat, i: nat :: g < m.L.geo.groups && i < m.L.geo.groupInodes ==>
          && Num(m.L.geo.groupInodes, g, i) in table
          && table[Num(m.L.geo.groupInodes, g, i)] == Decode(Slot(m, g, i)))
  }

  ghost predicate DataOk(m: Image, data: map<nat, seq<byte>>, free: set<nat>) {
    && (forall b :: b in data <==> m.L.HasRole(b, Data))
    && (forall b :: b in data ==> data[b] == m.disk[b])
    && (forall b :: b in free ==> b in data)
  }

  /** The image m means v. */
  ghost predicate Rep(m: Image, v: View) {
    && MirrorOk(m)
    && DescsOk(m)
    && KindOk(m, v.blocks, Blocks)
    && KindOk(m, v.inodes, Kind.Inodes)
    && TableOk(m, v.table)
    && DataOk(m, v.data, v.blocks.free)
  }

  // ---- device writes ----------------------------------------------------------------

  /** The blocks of class c are the same in both images. */
  ghost predicate Same(m: Image, n: Image, c: Class) {
    m.L == n.L && forall b :: 0 <= b < |m.disk| && ClassOf(m.L.role[b]) == c ==> m.disk[b] == n.disk[b]
  }

  /** Only blocks of class c differ. */
  ghost predicate SameBut(L: Layout, d: seq<seq<byte>>, e: seq<seq<byte>>, c: Class) {
    |d| == |e| && forall b :: 0 <= b < |d| && b < |L.role| && ClassOf(L.role[b]) != c ==> d[b] == e[b]
  }

  lemma {:induction false} SameRun(m: Image, n: Image, len: nat)
    requires Same(m, n, Descriptors) && len <= m.L.geo.tableBlocks
    ensures Run(m.disk, m.L.geo.tableBlock, len) == Run(n.disk, m.L.geo.tableBlock, len)
  {
    hide Plan.Ok;
    if len > 0 {
      SameRun(m, n, len - 1);
      TableRole(m.L, len - 1);
      RoleCount(m.L);
    }
  }

  /** The image after block b of the device is overwritten. */
  function WithBlock(m: Image, b: nat, d: seq<byte>): (n: Image)
    requires b < |m.disk| && |d| == m.L.geo.blockSize
    ensures n.L == m.L && n.sb == m.sb && n.bgdt == m.bgdt && n.disk == m.disk[b := d]
    ensures forall c :: c != ClassOf(m.L.role[b]) ==> Same(m, n, c)
  {
    m.(disk := m.disk[b := d])
  }

  // What a write to block b leaves alone, by the class of b.

  lemma {:induction false} MirrorKept(m: Image, b: nat, d: seq<byte>)
    requires b < |m.disk| && |d| == m.L.geo.blockSize && MirrorOk(m)
    requires ClassOf(m.L.role[b]) != Header && ClassOf(m.L.role[b]) != Descriptors
    ensures MirrorOk(WithBlock(m, b, d))
  {
    SameRun(m, WithBlock(m, b, d), m.L.geo.tableBlocks);
    assert m.L.HasRole(m.L.SbBlock(), Super);
  }

  lemma {:induction false} KindKept(m: Image, b: nat, d: seq<byte>, a: Alloc, k: Kind)
    requires b < |m.disk| && |d| == m.L.geo.blockSize && KindOk(m, a, k)
    requires ClassOf(m.L.role[b]) != Bitmaps
    ensures KindOk(WithBlock(m, b, d), a, k)
  {
    forall g: nat | g < m.L.geo.groups ensures m.L.BitmapAt(k)[g] != b {
      assert m.L.HasRole(m.L.BitmapAt(k)[g], if k.Blocks? then BlockBitmap(g) else InodeBitmap(g));
    }
  }

  lemma {:induction false} TableKept(m: Image, b: nat, d: seq<byte>, table: map<nat, Inode>)
    requires b < |m.disk| && |d| == m.L.geo.blockSize && TableOk(m, table)
    requires ClassOf(m.L.role[b]) != InodeTables
    ensures TableOk(WithBlock(m, b, d), table)
  {
    forall g: nat, i: nat | g < m.L.geo.groups && i < m.L.geo.groupInodes
      ensures Slot(m, g, i) == Slot(WithBlock(m, b, d), g, i)
    {
      SlotRole(m.L, g, i);
    }
  }

  lemma {:induction false} DataKept(m: Image, b: nat, d: seq<byte>, data: map<nat, seq<byte>>, free: set<nat>)
    requires b < |m.disk| && |d| == m.L.geo.blockSize && DataOk(m, data, free)
    requires !m.L.role[b].Data?
    ensures DataOk(WithBlock(m, b, d), data, free)
  {
  }

  lemma {:induction false} DataWritten(m: Image, b: nat, d: seq<byte>, data: map<nat, seq<byte>>, free: set<nat>)
    requires b < |m.disk| && |d| == m.L.geo.blockSize && DataOk(m, data, free)
    requires m.L.role[b].Data?
    ensures DataOk(WithBlock(m, b, d), data[b := d], free)
  {
  }

  /** Writing a data block changes that block's contents and nothing else. */
  lemma {:induction false} WriteDataRep(m: Image, v: View, b: nat, d: seq<byte>)
    requires Rep(m, v) && m.L.HasRole(b, Data) && |d| == m.L.geo.blockSize
    ensures Rep(WithBlock(m, b, d), v.(data := v.data[b := d]))
  {
    hide MirrorOk, KindOk, TableOk, DataOk;
    MirrorKept(m, b, d);
    KindKept(m, b, d, v.blocks, Blocks);
    KindKept(m, b, d, v.inodes, Kind.Inodes);
    TableKept(m, b, d, v.table);
    DataWritten(m, b, d, v.data, v.blocks.free);
  }

  lemma {:induction false} WriteTableRep(m: Image, v: View, b: nat, d: seq<byte>, table': map<nat, Inode>)
    requires Rep(m, v) && b < |m.disk| && |d| == m.L.geo.blockSize && ClassOf(m.L.role[b]) == InodeTables
    requires TableOk(WithBlock(m, b, d), table')
    ensures Rep(WithBlock(m, b, d), v.(table := table'))
  {
    hide MirrorOk, KindOk, TableOk, DataOk;
    MirrorKept(m, b, d);
    KindKept(m, b, d, v.blocks, Blocks);
    KindKept(m, b, d, v.inodes, Kind.Inodes);
    DataKept(m, b, d, v.data, v.blocks.free);
  }

  /** The address of inode `ino`: a block and an offset in it. */
  ghost function InodeBlock(L: Layout, ino: nat): (b: nat)
    requires IsInode(L, ino)
    ensures 0 < b < L.geo.blockCount && ClassOf(L.role[b]) == InodeTables
  {
    var g, i := GroupOf(L.geo.groupInodes, ino), IndexOf(L.geo.groupInodes, ino);
    NumOf(L.geo.groupInodes, ino, L.geo.groups);
    SlotRole(L, g, i);
    L.it[g] + SlotBlock(L.geo, i)
  }

  ghost function InodeOff(L: Layout, ino: nat): (off: nat)
    requires IsInode(L, ino)
    ensures off + L.geo.inodeSize <= L.geo.blockSize
  {
    NumOf(L.geo.groupInodes, ino, L.geo.groups);
    SlotFits(L, IndexOf(L.geo.groupInodes, ino));
    SlotOff(L.geo, IndexOf(L.geo.groupInodes, ino))
  }

  /** The image after inode `ino` is written to its table entry. */
  ghost function WithInode(m: Image, ino: nat, inode: Inode): Image
    requires IsInode(m.L, ino) && InodeOk(inode, m.L.geo.inodeSize)
  {
    var b := InodeBlock(m.L, ino);
    WithBlock(m, b, Splice(m.disk[b], InodeOff(m.L, ino), Encode(inode)))
  }

  lemma {:induction false} PlaceOf(L: Layout, ino: nat)
    requires IsInode(L, ino)
    ensures 1 <= ino && L.geo.groupInodes > 0 && GroupOf(L.geo.groupInodes, ino) < L.geo.groups && IndexOf(L.geo.groupInodes, ino) < L.geo.groupInodes
    ensures Num(L.geo.groupInodes, GroupOf(L.geo.groupInodes, ino), IndexOf(L.geo.groupInodes, ino)) == ino
    ensures |L.it| == L.geo.groups && L.geo.blockSize > 0
  {
    NumOf(L.geo.groupInodes, ino, L.geo.groups);
  }

  lemma {:induction false} WithInodeIs(m: Image, ino: nat, inode: Inode)
    requires IsInode(m.L, ino) && InodeOk(inode, m.L.geo.inodeSize)
    ensures |Encode(inode)| == m.L.geo.inodeSize
    ensures var g, i := GroupOf(m.L.geo.groupInodes, ino), IndexOf(m.L.geo.groupInodes, ino);
            && g < |m.L.it|
            && var b := m.L.it[g] + SlotBlock(m.L.geo, i);
            && b < |m.disk| && |m.disk[b]| == m.L.geo.blockSize && SlotOff(m.L.geo, i) + m.L.geo.inodeSize <= m.L.geo.blockSize
            && WithInode(m, ino, inode) == WithBlock(m, b, Splice(m.disk[b], SlotOff(m.L.geo, i), Encode(inode)))
  {
    hide Plan.Ok, SlotBlock, SlotOff, Encode, Splice, GroupOf, IndexOf;
    PlaceOf(m.L, ino);
    SlotRole(m.L, GroupOf(m.L.geo.groupInodes, ino), IndexOf(m.L.geo.groupInodes, ino));
    RoleCount(m.L);
  }

  lemma {:induction false} WriteInodeSlot(m: Image, ino: nat, inode: Inode, h: nat, j: nat)
    requires IsInode(m.L, ino) && InodeOk(inode, m.L.geo.inodeSize)
    requires h < m.L.geo.groups && j < m.L.geo.groupInodes
    ensures Slot(WithInode(m, ino, inode), h, j)
         == if Num(m.L.geo.groupInodes, h, j) == ino then Encode(inode) else Slot(m, h, j)
  {
    var per := m.L.geo.groupInodes;
    var g, i := GroupOf(per, ino), IndexOf(per, ino);
    hide *;
    PlaceOf(m.L, ino);
    NumInverts(per, h, j);
    WithInodeIs(m, ino, inode);
    WriteSlot(m, g, i, h, j, Encode(inode));
  }

  lemma {:induction false} WriteSlot(m: Image, g: nat, i: nat, h: nat, j: nat, d: seq<byte>)
    requires g < m.L.geo.groups && i < m.L.geo.groupInodes && h < m.L.geo.groups && j < m.L.geo.groupInodes
    requires |d| == m.L.geo.inodeSize
    ensures SlotOff(m.L.geo, i) + m.L.geo.inodeSize <= m.L.geo.blockSize
    ensures var b := m.L.it[g] + SlotBlock(m.L.geo, i);
            && b < |m.disk|
            && Slot(WithBlock(m, b, Splice(m.disk[b], SlotOff(m.L.geo, i), d)), h, j)
            == if g == h && i == j then d else Slot(m, h, j)
  {
    hide Plan.Ok, SlotBlock, SlotOff;
    RoleCount(m.L);
    SlotRole(m.L, g, i);
    SlotRole(m.L, h, j);
    if h == g && j != i {
      SlotsDisjoint(m.L, i, j);
    }
  }

  lemma {:induction false} WriteInodeTable(m: Image, table: map<nat, Inode>, ino: nat, inode: Inode)
    requires TableOk(m, table) && IsInode(m.L, ino) && InodeOk(inode, m.L.geo.inodeSize)
    ensures TableOk(WithInode(m, ino, inode), table[ino := inode])
  {
    DecodeEncode(inode);
    forall h: nat, j: nat | h < m.L.geo.groups && j < m.L.geo.groupInodes
      ensures Slot(WithInode(m, ino, inode), h, j)
           == if Num(m.L.geo.groupInodes, h, j) == ino then Encode(inode) else Slot(m, h, j)
    {
      WriteInodeSlot(m, ino, inode, h, j);
    }
  }

  /** Writing one inode changes that inode and no other. */
  lemma {:induction false} WriteInodeRep(m: Image, v: View, ino: nat, inode: Inode)
    requires Rep(m, v) && IsInode(m.L, ino) && InodeOk(inode, m.L.geo.inodeSize)
    ensures Rep(WithInode(m, ino, inode), v.(table := v.table[ino := inode]))
  {
    hide TableOk;
    var b := InodeBlock(m.L, ino);
    WriteInodeTable(m, v.table, ino, inode);
    WriteTableRep(m, v, b, Splice(m.disk[b], InodeOff(m.L, ino), Encode(inode)), v.table[ino := inode]);
  }

  // ---- allocation -------------------------------------------------------------------

  /** From m to n: one bitmap of kind k and its two counts were rewritten and flushed. */
  ghost predicate Recounted(m: Image, n: Image, k: Kind, g: nat, map': seq<byte>, count: u16, total: u32) {
    && n.L == m.L && g < m.L.geo.groups
    && n.sb == Put32(m.sb, TotalOff(k), total) && n.sb == SbBytes(n)
    && n.bgdt == PutCount(m.bgdt, g, k, count) && n.bgdt == TableBytes(n)
    && Same(m, n, InodeTables) && Same(m, n, Contents)
    && m.L.BitmapAt(k)[g] < |n.disk| && n.disk[m.L.BitmapAt(k)[g]] == map'
    && (forall b :: 0 <= b < |n.disk| && ClassOf(m.L.role[b]) == Bitmaps && b != m.L.BitmapAt(k)[g]
          ==> n.disk[b] == m.disk[b])
  }

  lemma {:induction false} RecountedMirror(m: Image, n: Image, k: Kind, g: nat, map': seq<byte>, count: u16, total: u32)
    requires Recounted(m, n, k, g, map', count, total) && MirrorOk(m)
    ensures MirrorOk(n)
  {
    NormalizeIdempotent(SbBytes(m));
    TotalsKeepGeometry(m.sb, TotalOff(k), total);
  }

  lemma {:induction false} RecountedDescs(m: Image, n: Image, k: Kind, g: nat, map': seq<byte>, count: u16, total: u32)
    requires Recounted(m, n, k, g, map', count, total) && DescsOk(m)
    ensures DescsOk(n)
  {
    forall h: nat | h < m.L.geo.groups
      ensures PointerAt(n.bgdt, h, GD_BLOCK_BITMAP) == m.L.bb[h]
      ensures PointerAt(n.bgdt, h, GD_INODE_BITMAP) == m.L.ib[h]
      ensures PointerAt(n.bgdt, h, GD_INODE_TABLE) == m.L.it[h]
    {
      PutCountFrame(m.bgdt, g, k, count, h);
    }
  }

  lemma {:induction false} TotalPut(sb: seq<byte>, k: Kind, total: u32, j: Kind)
    requires |sb| == SB_SIZE
    ensures TotalAt(Put32(sb, TotalOff(k), total), j) == if j == k then total else TotalAt(sb, j)
  {
  }

  lemma {:induction false} RecountedCounts(m: Image, n: Image, k: Kind, g: nat, map': seq<byte>, count: u16, total: u32, j: Kind, h: nat)
    requires Recounted(m, n, k, g, map', count, total) && h < m.L.geo.groups
    ensures CountAt(n.bgdt, h, j) == if j == k && h == g then count else CountAt(m.bgdt, h, j)
    ensures TotalAt(n.sb, j) == if j == k then total else TotalAt(m.sb, j)
  {
    hide CountAt, PutCount, Put32, U32At, Same, SbBytes, TableBytes;
    PutCountFrame(m.bgdt, g, k, count, h);
    TotalPut(m.sb, k, total, j);
  }

  /** The bitmap of kind j, group h is the one rewritten or is unchanged. */
  lemma {:induction false} RecountedBitmap(m: Image, n: Image, k: Kind, g: nat, map': seq<byte>, count: u16, total: u32, j: Kind, h: nat)
    requires Recounted(m, n, k, g, map', count, total) && h < m.L.geo.groups
    ensures m.L.BitmapAt(j)[h] < |m.disk|
    ensures n.disk[m.L.BitmapAt(j)[h]] == if j == k && h == g then map' else m.disk[m.L.BitmapAt(j)[h]]
  {
    hide Plan.Ok, PutCount, Put32, SbBytes, TableBytes;
    RoleCount(m.L);
    BitmapRole(m.L, j, h);
    BitmapRole(m.L, k, g);
  }

  /** The counts are as before but for group g's. */
  ghost predicate Adjusted(counts: seq<nat>, counts': seq<nat>, g: nat, count: nat) {
    |counts'| == |counts| && forall h :: 0 <= h < |counts| ==> counts'[h] == if h == g then count else counts[h]
  }

  lemma {:induction false} RecountedKind(m: Image, n: Image, k: Kind, g: nat, map': seq<byte>, a: Alloc, a': Alloc, count: u16, total: u32)
    requires Recounted(m, n, k, g, map', count, total)
    requires KindOk(m, a, k) && a'.Ok(m.L.Per(k)) && a'.maps == a.maps[g := map']
    requires Adjusted(a.counts, a'.counts, g, count) && |a'.free| == total
    ensures KindOk(n, a', k)
  {
    RecountedCounts(m, n, k, g, map', count, total, k, g);
    forall h: nat | h < m.L.geo.groups
      ensures a'.maps[h] == n.disk[m.L.BitmapAt(k)[h]] && a'.counts[h] == CountAt(n.bgdt, h, k)
    {
      RecountedCounts(m, n, k, g, map', count, total, k, h);
      RecountedBitmap(m, n, k, g, map', count, total, k, h);
    }
  }

  lemma {:induction false} RecountedOther(m: Image, n: Image, k: Kind, g: nat, map': seq<byte>, count: u16, total: u32, a: Alloc, j: Kind)
    requires Recounted(m, n, k, g, map', count, total) && j != k && KindOk(m, a, j)
    ensures KindOk(n, a, j)
  {
    RecountedCounts(m, n, k, g, map', count, total, j, g);
    forall h: nat | h < m.L.geo.groups
      ensures a.maps[h] == n.disk[m.L.BitmapAt(j)[h]] && a.counts[h] == CountAt(n.bgdt, h, j)
    {
      RecountedCounts(m, n, k, g, map', count, total, j, h);
      RecountedBitmap(m, n, k, g, map', count, total, j, h);
    }
  }

  lemma {:induction false} RecountedTable(m: Image, n: Image, table: map<nat, Inode>)
    requires Same(m, n, InodeTables) && TableOk(m, table)
    ensures TableOk(n, table)
  {
    hide Plan.Ok, SlotBlock, SlotOff, Num, Decode;
    RoleCount(m.L);
    forall g: nat, i: nat | g < m.L.geo.groups && i < m.L.geo.groupInodes
      ensures Slot(m, g, i) == Slot(n, g, i)
    {
      SlotRole(m.L, g, i);
    }
  }

  /** The image means what it did, with kind k's allocation state replaced. */
  lemma {:induction false} RecountedRep(m: Image, n: Image, v: View, k: Kind, g: nat, map': seq<byte>, a': Alloc, count: u16, total: u32)
    requires Rep(m, v)
    requires Recounted(m, n, k, g, map', count, total)
    requires a'.Ok(m.L.Per(k)) && g < |v.Of(k).maps| && a'.maps == v.Of(k).maps[g := map']
    requires Adjusted(v.Of(k).counts, a'.counts, g, count) && |a'.free| == total
    requires k.Blocks? ==> forall b :: b in a'.free ==> b in v.data
    ensures Rep(n, v.With(k, a'))
  {
    hide MirrorOk, DescsOk, KindOk, TableOk, BitsOk, CountsOk;
    RecountedMirror(m, n, k, g, map', count, total);
    RecountedDescs(m, n, k, g, map', count, total);
    RecountedKind(m, n, k, g, map', v.Of(k), a', count, total);
    if k.Blocks? {
      RecountedOther(m, n, k, g, map', count, total, v.inodes, Kind.Inodes);
    } else {
      RecountedOther(m, n, k, g, map', count, total, v.blocks, Blocks);
    }
    RecountedTable(m, n, v.table);
    RecountedData(m, n, v.data, v.blocks.free, v.With(k, a').blocks.free);
  }

  lemma {:induction false} RecountedData(m: Image, n: Image, data: map<nat, seq<byte>>, free: set<nat>, free': set<nat>)
    requires Same(m, n, Contents) && DataOk(m, data, free) && forall b :: b in free' ==> b in data
    ensures DataOk(n, data, free')
  {
  }
}
