/** Mounting, and the byte addresses behind block numbers. */
module Mounting {
  import opened Arith
  import opened Bytes
  import opened Layout
  import opened State
  import opened Volumes

  /** The device as the block driver sees it: one run of bytes. */
  function Flat(disk: seq<seq<byte>>): seq<byte> {
    Run(disk, 0, |disk|)
  }

  /** The n blocks from `lo` on are the n * bs bytes from lo * bs on. */
  lemma {:induction false} RunInRun(disk: seq<seq<byte>>, bs: nat, lo: nat, n: nat, all: nat)
    requires lo + n <= all <= |disk| && forall b :: 0 <= b < |disk| ==> |disk[b]| == bs
    ensures |Run(disk, 0, all)| == Times(all, bs)
    ensures Times(lo, bs) + Times(n, bs) == Times(lo + n, bs) <= Times(all, bs)
    ensures Sub(Run(disk, 0, all), Times(lo, bs), Times(n, bs)) == Run(disk, lo, n)
    decreases all
  {
    hide *;
    RunLength(disk, 0, all, bs);
    TimesAdd(lo, n, bs);
    TimesMono(lo + n, all, bs);
    if lo + n < all {
      RunInRun(disk, bs, lo, n, all - 1);
      RunMore(disk, 0, all);
      SubOfFront(Run(disk, 0, all - 1), disk[all - 1], Times(lo, bs), Times(n, bs));
    } else if n > 0 {
      RunInRun(disk, bs, lo, n - 1, all - 1);
      RunMore(disk, 0, all);
      RunMore(disk, lo, n);
      TimesAdd(n - 1, 1, bs);
      TimesOne(bs);
      SubToEnd(Run(disk, 0, all - 1), disk[all - 1], Times(lo, bs), Times(n - 1, bs));
    } else {
      NothingOf(disk, lo, Run(disk, 0, all), Times(lo, bs), bs);
    }
  }

  lemma {:induction false} RunMore(disk: seq<seq<byte>>, lo: nat, n: nat)
    requires 0 < n && lo + n <= |disk|
    ensures Run(disk, lo, n) == Run(disk, lo, n - 1) + disk[lo + n - 1]
  {
  }

  lemma {:induction false} SubOfFront(a: seq<byte>, b: seq<byte>, off: nat, n: nat)
    requires off + n <= |a|
    ensures Sub(a + b, off, n) == Sub(a, off, n)
  {
  }

  lemma {:induction false} SubToEnd(a: seq<byte>, b: seq<byte>, off: nat, n: nat)
    requires off + n == |a|
    ensures Sub(a + b, off, n + |b|) == Sub(a, off, n) + b
  {
  }

  lemma {:induction false} NothingOf(disk: seq<seq<byte>>, lo: nat, a: seq<byte>, off: nat, bs: nat)
    requires off <= |a| && lo <= |disk|
    ensures Times(0, bs) == 0 && Sub(a, off, 0) == Run(disk, lo, 0)
  {
  }

  /** Block b of the device is the bs bytes at offset b * bs. */
  lemma {:induction false} BlockAddress(disk: seq<seq<byte>>, bs: nat, b: nat)
    requires b < |disk| && forall c :: 0 <= c < |disk| ==> |disk[c]| == bs
    ensures Times(b, bs) + bs <= |Flat(disk)|
    ensures Sub(Flat(disk), Times(b, bs), bs) == disk[b]
  {
    RunInRun(disk, bs, b, 1, |disk|);
    TimesOne(bs);
    assert Run(disk, b, 1) == Run(disk, b, 0) + disk[b] == disk[b];
  }

  /** The superblock is the 1024 bytes at offset 1024, whatever the block size. */
  lemma {:induction false} SuperblockAddress(m: Image)
    ensures 2 * SB_SIZE <= |Flat(m.disk)|
    ensures Sub(Flat(m.disk), SB_SIZE, SB_SIZE) == SbBytes(m)
  {
    var bs, b := m.L.geo.blockSize, m.L.SbBlock();
    assert m.L.HasRole(b, Super);
    BlockAddress(m.disk, bs, b);
    TimesOne(bs);
    assert Times(0, bs) == 0;
    var flat := Flat(m.disk);
    forall i | 0 <= i < SB_SIZE ensures Sub(flat, SB_SIZE, SB_SIZE)[i] == SbBytes(m)[i] {
      assert flat[Times(b, bs) + (m.L.SbOff() + i)] == Sub(flat, Times(b, bs), bs)[m.L.SbOff() + i];
    }
  }

  /** What ext2_fs_mount sets up: the normalized superblock, the geometry and the table. */
  datatype Mounted = Mounted(sb: seq<byte>, geo: Geometry, bgdt: seq<byte>)

  /** The descriptor table is read block by block. */
  method ReadTable(device: seq<byte>, start: nat, blocks: nat, bs: nat) returns (bgdt: seq<byte>)
    requires start + Times(blocks, bs) <= |device|
    ensures bgdt == Sub(device, start, Times(blocks, bs))
  {
    bgdt := [];
    var i, off := 0, start;
    while i < blocks
      invariant i <= blocks && off == start + Times(i, bs) <= |device|
      invariant bgdt == Sub(device, start, Times(i, bs))
    {
      TimesMono(i + 1, blocks, bs);
      bgdt := bgdt + Sub(device, off, bs);
      i, off := i + 1, off + bs;
    }
  }

  /** The device is long enough for a superblock, and has one of this file system. */
  predicate HasSuperblock(device: seq<byte>) {
    2 * SB_SIZE <= |device| && U16At(Sub(device, SB_SIZE, SB_SIZE), SB_MAGIC) == MAGIC
  }

  /** The superblock read from the device has a non-zero group size, and all of the descriptor
      table it asks for is on the device. */
  predicate Mountable(device: seq<byte>)
    requires HasSuperblock(device)
  {
    var sb := Normalize(Sub(device, SB_SIZE, SB_SIZE));
    U32At(sb, SB_GROUP_BLOCKS) > 0
    && var geo := GeometryOf(sb); Times(geo.tableBlock, geo.blockSize) + Times(geo.tableBlocks, geo.blockSize) <= |device|
  }

  /** ext2_fs_mount. */
  method Mount(device: seq<byte>) returns (res: int, mounted: Mounted)
    requires HasSuperblock(device) ==> Mountable(device)
    ensures (res == 0 <==> HasSuperblock(device)) && (res != 0 ==> res == EINVAL)
    ensures res == 0 ==>
              var geo := mounted.geo;
              && mounted.sb == Normalize(Sub(device, SB_SIZE, SB_SIZE)) && U32At(mounted.sb, SB_GROUP_BLOCKS) > 0
              && geo == GeometryOf(mounted.sb)
              && Times(geo.tableBlock, geo.blockSize) + Times(geo.tableBlocks, geo.blockSize) <= |device|
              && mounted.bgdt == Sub(device, Times(geo.tableBlock, geo.blockSize), Times(geo.tableBlocks, geo.blockSize))
  {
    mounted := Mounted([], Geometry(0, 0, 0, 0, 0, 0, 0, 0), []);
    if |device| < 2 * SB_SIZE {
      return EINVAL, mounted;
    }
    var sb := Sub(device, SB_SIZE, SB_SIZE);
    if U16At(sb, SB_MAGIC) != MAGIC {
      return EINVAL, mounted;
    }
    sb := Normalize(sb);
    var geo := GeometryOf(sb);
    var bgdt := ReadTable(device, Times(geo.tableBlock, geo.blockSize), geo.tableBlocks, geo.blockSize);
    mounted := Mounted(sb, geo, bgdt);
    res := 0;
  }

  /** Mounting the device of a volume, after any run of operations on it, finds the
      in-memory superblock, geometry and descriptor table the volume has. */
  lemma {:induction false} RemountRestores(m: Image, v: View)
    requires Rep(m, v)
    ensures 2 * SB_SIZE <= |Flat(m.disk)|
    ensures var sb := Sub(Flat(m.disk), SB_SIZE, SB_SIZE);
            && U16At(sb, SB_MAGIC) == MAGIC && Normalize(sb) == m.sb
            && U32At(sb, SB_GROUP_BLOCKS) > 0 && GeometryOf(Normalize(sb)) == m.L.geo
    ensures var geo := m.L.geo;
            && Times(geo.tableBlock, geo.blockSize) + Times(geo.tableBlocks, geo.blockSize)
               == Times(geo.tableBlock + geo.tableBlocks, geo.blockSize) <= |Flat(m.disk)|
            && Sub(Flat(m.disk), Times(geo.tableBlock, geo.blockSize), Times(geo.tableBlocks, geo.blockSize)) == m.bgdt
  {
    hide KindOk, TableOk, DataOk, DescsOk, Plan.Ok, U16At, U32At, Normalize, GeometryOf, Run, Times, Sub;
    RoleCount(m.L);
    SuperblockAddress(m);
    NormalizeKeeps(SbBytes(m));
    RunInRun(m.disk, m.L.geo.blockSize, m.L.geo.tableBlock, m.L.geo.tableBlocks, |m.disk|);
  }

  lemma {:induction false} NormalizeKeeps(sb: seq<byte>)
    requires |sb| == SB_SIZE
    ensures U16At(Normalize(sb), SB_MAGIC) == U16At(sb, SB_MAGIC)
    ensures U32At(Normalize(sb), SB_GROUP_BLOCKS) == U32At(sb, SB_GROUP_BLOCKS)
  {
  }

  /** The run-time form: unmount and mount again. */
  method Remount(fs: Volume) returns (mounted: Mounted)
    requires fs.Valid()
    ensures mounted == Mounted(fs.sb, fs.geo, fs.bgdt)
  {
    hide Rep, Sub, Normalize, GeometryOf, U16At, U32At;
    RemountRestores(fs.Img(), fs.view);
    NormalizeKeeps(Sub(Flat(fs.disk), SB_SIZE, SB_SIZE));
    var res;
    res, mounted := Mount(Flat(fs.disk));
  }
}
