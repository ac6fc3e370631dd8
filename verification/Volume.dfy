/** The mounted volume: block I/O, the first-fit allocator and the inode table, all
    written through to the device. */
module Volumes {
  import opened Arith
  import opened Bytes
  import opened Bitmap
  import opened Numbering
  import opened Layout
  import opened Inodes
  import opened State

  const EIO: int := -5
  const ENOENT: int := -2
  const EISDIR: int := -21
  const EINVAL: int := -22
  const ENOSPC: int := -28
  const ESPIPE: int := -29

  /** `buf[n / 64] |= 1 << (n % 64)` */
  method SetInPlace(buf: array<byte>, n: nat)
    requires n < 8 * buf.Length
    modifies buf
    ensures buf[..] == SetBit(old(buf[..]), n)
  {
    if !NatBit(buf[n / 8], n % 8) {
      ByteWeight();
      OrFits(buf[n / 8], n % 8, 8);
      buf[n / 8] := buf[n / 8] + Weight(n % 8);
    }
  }

  /** `buf[n / 64] &= ~(1 << (n % 64))` */
  method ClearInPlace(buf: array<byte>, n: nat)
    requires n < 8 * buf.Length
    modifies buf
    ensures buf[..] == ClearBit(old(buf[..]), n)
  {
    if NatBit(buf[n / 8], n % 8) {
      Bitmap.AndNotBit(buf[n / 8], n % 8, 0);
      buf[n / 8] := buf[n / 8] - Weight(n % 8);
    }
  }

  lemma {:induction false} RunLength(disk: seq<seq<byte>>, lo: nat, n: nat, bs: nat)
    requires lo + n <= |disk| && forall b :: 0 <= b < |disk| ==> |disk[b]| == bs
    ensures |Run(disk, lo, n)| == Times(n, bs)
  {
    if n > 0 {
      RunLength(disk, lo, n - 1, bs);
    }
  }

  lemma {:induction false} RunFrame(d: seq<seq<byte>>, e: seq<seq<byte>>, lo: nat, n: nat)
    requires lo + n <= |d| == |e| && forall b :: lo <= b < lo + n ==> d[b] == e[b]
    ensures Run(d, lo, n) == Run(e, lo, n)
  {
    if n > 0 {
      RunFrame(d, e, lo, n - 1);
    }
  }

  lemma {:induction false} FirstOffset(bs: nat, disk: seq<seq<byte>>, lo: nat)
    requires lo <= |disk|
    ensures Times(0, bs) == 0 && Run(disk, lo, 0) == []
  {
  }

  lemma {:induction false} NextOffset(i: nat, n: nat, bs: nat)
    requires i < n
    ensures Times(i, bs) + bs == Times(i + 1, bs) <= Times(n, bs)
  {
    TimesMono(i + 1, n, bs);
  }

  /** One more block of a run that spells out `s`. */
  lemma {:induction false} RunStep(d: seq<seq<byte>>, lo: nat, i: nat, s: seq<byte>, off: nat, chunk: seq<byte>)
    requires lo + i < |d| && off + |chunk| <= |s|
    requires Run(d, lo, i) == s[..off] && chunk == Sub(s, off, |chunk|)
    ensures Run(d[lo + i := chunk], lo, i + 1) == s[..off + |chunk|]
  {
    RunFrame(d, d[lo + i := chunk], lo, i);
    assert s[..off + |chunk|] == s[..off] + chunk;
  }

  /** The three device writes of a commit, one after the other: the bitmap block (m to m1),
      the descriptor table (m1 to m2), the superblock (m2 to n). */
  lemma {:induction false} CommitSteps(m: Image, m1: Image, m2: Image, n: Image, k: Kind, g: nat, map': seq<byte>, count: u16, total: u32)
    requires g < m.L.geo.groups && |map'| == m.L.geo.blockSize && m.L.BitmapAt(k)[g] < |m.disk|
    requires m1 == WithBlock(m, m.L.BitmapAt(k)[g], map')
    requires m2.L == m.L && m2.bgdt == PutCount(m.bgdt, g, k, count) && TableBytes(m2) == m2.bgdt
    requires SameBut(m.L, m1.disk, m2.disk, Descriptors) && SameBut(m.L, m2.disk, n.disk, Header)
    requires n.L == m.L && n.bgdt == m2.bgdt && n.sb == Put32(m.sb, TotalOff(k), total) && SbBytes(n) == n.sb
    ensures Recounted(m, n, k, g, map', count, total)
  {
    hide Plan.Ok, PutCount, Put32, SbBytes, Run, TotalOff;
    RoleCount(m.L);
    BitmapRole(m.L, k, g);
    SameRun(m2, n, m.L.geo.tableBlocks);
  }

  /** Every bitmap of kind k can be read and agrees with the group's count. */
  ghost predicate Scannable(m: Image, a: Alloc, k: Kind) {
    && |a.maps| == |a.counts| == m.L.geo.groups
    && forall g: nat :: g < m.L.geo.groups ==>
         && 0 < PointerAt(m.bgdt, g, BitmapOff(k)) < |m.disk|
         && a.maps[g] == m.disk[PointerAt(m.bgdt, g, BitmapOff(k))]
         && a.counts[g] == CountAt(m.bgdt, g, k)
  }

  /** The scan passes over group h: its count or its bitmap says nothing is free. */
  ghost predicate Skipped(a: Alloc, h: nat)
    requires h < |a.maps| == |a.counts|
  {
    a.counts[h] == 0 || Clear(a.maps[h]) == 0
  }

  lemma {:induction false} RepScannable(m: Image, a: Alloc, k: Kind)
    requires KindOk(m, a, k) && DescsOk(m)
    ensures Scannable(m, a, k)
    ensures forall g: nat :: g < m.L.geo.groups ==> PointerAt(m.bgdt, g, BitmapOff(k)) == m.L.BitmapAt(k)[g]
  {
    forall g: nat | g < m.L.geo.groups
      ensures 0 < PointerAt(m.bgdt, g, BitmapOff(k)) < |m.disk|
      ensures PointerAt(m.bgdt, g, BitmapOff(k)) == m.L.BitmapAt(k)[g]
    {
      assert m.L.HasRole(m.L.BitmapAt(k)[g], if k.Blocks? then BlockBitmap(g) else InodeBitmap(g));
    }
  }

  /** What the allocator may rely on once bit i of group g is found clear. */
  lemma {:induction false} AllocSteps(m: Image, v: View, k: Kind, g: nat, i: nat, no: nat)
    requires Rep(m, v)
    requires g < |v.Of(k).maps| && i < 8 * |v.Of(k).maps[g]| && !Bit(v.Of(k).maps[g], i)
    requires no == Num(m.L.Per(k), g, i)
    ensures var a := v.Of(k); var a' := a.Take(m.L.Per(k), no);
            && no in a.free && |a.counts| == |a.maps| && a.counts[g] > 0 && a'.Ok(m.L.Per(k))
            && a'.maps == a.maps[g := SetBit(a.maps[g], i)] && a'.counts == a.counts[g := a.counts[g] - 1]
            && a'.free == a.free - {no} && (k.Blocks? ==> forall b :: b in a'.free ==> b in v.data)
  {
    TakeSteps(v.Of(k), m.L.Per(k), g, i, no);
  }

  lemma {:induction false} TakeSteps(a: Alloc, per: nat, g: nat, i: nat, no: nat)
    requires a.Ok(per) && g < |a.maps| && i < 8 * |a.maps[g]| && !Bit(a.maps[g], i)
    requires no == Num(per, g, i)
    ensures var a' := a.Take(per, no);
            && no in a.free && |a.counts| == |a.maps| && a.counts[g] > 0 && a'.Ok(per)
            && a'.maps == a.maps[g := SetBit(a.maps[g], i)] && a'.counts == a.counts[g := a.counts[g] - 1]
            && a'.free == a.free - {no}
  {
    TakeOk(a, per, g, i);
    NumInverts(per, g, i);
  }

  /** The counters a commit adjusts are those of the view. */
  lemma {:induction false} RepCounters(m: Image, v: View, k: Kind, g: nat)
    requires Rep(m, v) && g < m.L.geo.groups
    ensures g < |v.Of(k).counts| && CountAt(m.bgdt, g, k) == v.Of(k).counts[g]
    ensures TotalAt(m.sb, k) == |v.Of(k).free|
    ensures |m.bgdt| == Times(m.L.geo.tableBlocks, m.L.geo.blockSize)
    ensures PointerAt(m.bgdt, g, BitmapOff(k)) == m.L.BitmapAt(k)[g]
  {
    RunLength(m.disk, m.L.geo.tableBlock, m.L.geo.tableBlocks, m.L.geo.blockSize);
  }

  /** The counters before bit i of group g is taken: none will wrap. */
  lemma {:induction false} AllocCounters(m: Image, v: View, k: Kind, g: nat, i: nat, no: nat)
    requires Rep(m, v)
    requires g < |v.Of(k).maps| && i < 8 * |v.Of(k).maps[g]| && !Bit(v.Of(k).maps[g], i)
    requires no == Num(m.L.Per(k), g, i)
    ensures g < m.L.geo.groups && g < |v.Of(k).counts|
    ensures 0 < CountAt(m.bgdt, g, k) == v.Of(k).counts[g] && 0 < TotalAt(m.sb, k) == |v.Of(k).free|
    ensures PointerAt(m.bgdt, g, BitmapOff(k)) == m.L.BitmapAt(k)[g]
    ensures |m.bgdt| == Times(m.L.geo.tableBlocks, m.L.geo.blockSize)
  {
    AllocSteps(m, v, k, g, i, no);
    RepCounters(m, v, k, g);
  }

  /** Bit i of group g was set and the counters lowered: number no is taken. */
  lemma {:induction false} MarkRep(m: Image, n: Image, v: View, k: Kind, g: nat, i: nat, no: nat, map': seq<byte>, count: u16, total: u32)
    requires g < |v.Of(k).maps| && i < 8 * |v.Of(k).maps[g]| && !Bit(v.Of(k).maps[g], i)
    requires no == Num(m.L.Per(k), g, i) && map' == SetBit(v.Of(k).maps[g], i)
    requires g < |v.Of(k).counts| && count + 1 == v.Of(k).counts[g] && total + 1 == |v.Of(k).free|
    requires Rep(m, v) && Recounted(m, n, k, g, map', count, total)
    ensures Rep(n, v.With(k, v.Of(k).Take(m.L.Per(k), no)))
  {
    hide Rep, Recounted, BitsOk, CountsOk, Bit, SetBit;
    AllocSteps(m, v, k, g, i, no);
    RecountedRep(m, n, v, k, g, map', v.Of(k).Take(m.L.Per(k), no), count, total);
  }

  /** Before number no is freed: its bit is set and the counters will not wrap. */
  lemma {:induction false} FreeCounters(m: Image, v: View, k: Kind, no: nat)
    requires Rep(m, v)
    requires 1 <= no <= Times(m.L.geo.groups, m.L.Per(k)) && no !in v.Of(k).free
    ensures m.L.Per(k) > 0
    ensures var g, i := GroupOf(m.L.Per(k), no), IndexOf(m.L.Per(k), no);
            && g < m.L.geo.groups && g < |v.Of(k).counts| && g < |v.Of(k).maps|
            && i < 8 * |v.Of(k).maps[g]| && Bit(v.Of(k).maps[g], i)
            && CountAt(m.bgdt, g, k) == v.Of(k).counts[g] < 0xFFFF
            && PointerAt(m.bgdt, g, BitmapOff(k)) == m.L.BitmapAt(k)[g]
            && 0 < m.L.BitmapAt(k)[g] < |m.disk| && m.disk[m.L.BitmapAt(k)[g]] == v.Of(k).maps[g]
    ensures TotalAt(m.sb, k) == |v.Of(k).free| < U32_LIMIT - 1
    ensures |m.bgdt| == Times(m.L.geo.tableBlocks, m.L.geo.blockSize)
  {
    var a, per := v.Of(k), m.L.Per(k);
    assert a.Ok(per) && |a.maps| == m.L.geo.groups;
    GiveUsed(a, per, no);
    NumOf(per, no, |a.maps|);
    RepCounters(m, v, k, GroupOf(per, no));
    RepScannable(m, a, k);
    FreeBelow(a, per, no, m.L.geo.groups);
  }

  lemma {:induction false} FreeBelow(a: Alloc, per: nat, no: nat, groups: nat)
    requires a.Ok(per) && no !in a.free && |a.maps| == groups && 1 <= no <= Times(groups, per)
    ensures |a.free| < Times(groups, per)
  {
    CardinalityBound(a.free + {no}, Times(groups, per));
  }

  /** Bit of number no was cleared and the counters raised: no is free. */
  lemma {:induction false} UnmarkRep(m: Image, n: Image, v: View, k: Kind, no: nat, map': seq<byte>, count: u16, total: u32)
    requires m.L.Per(k) > 0 && 1 <= no <= Times(m.L.geo.groups, m.L.Per(k)) && no !in v.Of(k).free
    requires var g, i := GroupOf(m.L.Per(k), no), IndexOf(m.L.Per(k), no);
             && g < |v.Of(k).counts| && g < |v.Of(k).maps| && i < 8 * |v.Of(k).maps[g]|
             && map' == ClearBit(v.Of(k).maps[g], i)
             && count == v.Of(k).counts[g] + 1 && total == |v.Of(k).free| + 1
             && Rep(m, v) && Recounted(m, n, k, g, map', count, total)
    requires k.Blocks? ==> no in v.data
    ensures Rep(n, v.With(k, v.Of(k).Give(m.L.Per(k), no)))
  {
    hide Rep, Recounted, BitsOk, CountsOk, Bit, ClearBit, GroupOf, IndexOf;
    var a, per := v.Of(k), m.L.Per(k);
    FreeSteps(m, v, k, no);
    RecountedRep(m, n, v, k, GroupOf(per, no), map', a.Give(per, no), count, total);
  }

  lemma {:induction false} FreeSteps(m: Image, v: View, k: Kind, no: nat)
    requires Rep(m, v)
    requires 1 <= no <= Times(m.L.geo.groups, m.L.Per(k)) && no !in v.Of(k).free
    requires k.Blocks? ==> no in v.data
    ensures var a, per := v.Of(k), m.L.Per(k); var a' := a.Give(per, no);
            && per > 0 && a.Has(per, no) && a'.Ok(per) && a' == a.Given(GroupOf(per, no), IndexOf(per, no), no)
            && (k.Blocks? ==> forall b :: b in a'.free ==> b in v.data)
  {
    GiveUsed(v.Of(k), m.L.Per(k), no);
  }

  lemma {:induction false} DataBlock(m: Image, v: View, no: nat)
    requires Rep(m, v) && no in v.data
    ensures 0 < no < |m.disk| && m.L.HasRole(no, Data) && m.disk[no] == v.data[no]
  {
  }

  /** Where inode `ino` is and what is there. */
  lemma {:induction false} InodeAddress(m: Image, v: View, ino: nat)
    requires Rep(m, v) && ino in v.table
    ensures IsInode(m.L, ino)
    ensures var g, i := GroupOf(m.L.geo.groupInodes, ino), IndexOf(m.L.geo.groupInodes, ino);
            && g < m.L.geo.groups && i < m.L.geo.groupInodes
            && PointerAt(m.bgdt, g, GD_INODE_TABLE) + SlotBlock(m.L.geo, i) == InodeBlock(m.L, ino)
            && SlotOff(m.L.geo, i) == InodeOff(m.L, ino)
    ensures v.table[ino] == Decode(Sub(m.disk[InodeBlock(m.L, ino)], InodeOff(m.L, ino), m.L.geo.inodeSize))
  {
    var per := m.L.geo.groupInodes;
    hide Plan.Ok, GroupOf, IndexOf, SlotBlock, SlotOff, Decode, MirrorOk, KindOk, DataOk, Num, PointerAt, Times;
    RoleCount(m.L);
    PlaceOf(m.L, ino);
    SlotRole(m.L, GroupOf(per, ino), IndexOf(per, ino));
    assert v.table[Num(per, GroupOf(per, ino), IndexOf(per, ino))]
        == Decode(Slot(m, GroupOf(per, ino), IndexOf(per, ino)));
  }

  /** What the scan found is the lowest free number; finding nothing means nothing is free. */
  lemma {:induction false} FirstFit(a: Alloc, per: nat, found: bool, g: nat, i: nat)
    requires a.Ok(per)
    requires forall h: nat :: h < (if found then g else |a.counts|) ==> h < |a.maps| && Skipped(a, h)
    requires found ==> g < |a.maps| && i < 8 * |a.maps[g]| && !Bit(a.maps[g], i)
    requires found ==> forall n: nat :: n < i ==> Bit(a.maps[g], n)
    ensures found ==> forall n :: n in a.free ==> Num(per, g, i) <= n
    ensures !found ==> a.free == {}
  {
    forall h: nat | h < (if found then g else |a.counts|) ensures Clear(a.maps[h]) == 0 && a.counts[h] == 0 {
      assert Skipped(a, h);
    }
    if found {
      FirstFitIsLeast(a.maps, per, a.free, g, i);
    } else {
      NoneFree(a.maps, a.counts, per, a.free);
    }
  }

  class Volume {
    const geo: Geometry
    ghost const L: Layout
    var sb: seq<byte>
    var bgdt: seq<byte>
    var disk: seq<seq<byte>>
    ghost var view: View

    ghost predicate Shape()
      reads this
    {
      && geo == L.geo && DiskOk(L, disk) && |sb| == SB_SIZE && GD_SIZE * geo.groups <= |bgdt|
    }

    ghost function Img(): (m: Image)
      requires Shape()
      reads this
      ensures m.L == L && m.sb == sb && m.bgdt == bgdt && m.disk == disk
    {
      Bytes3(L, sb, bgdt, disk)
    }

    ghost predicate Valid()
      reads this
    {
      Shape() && Rep(Img(), view)
    }

    /** A volume whose bytes mean v, as mounting sets it up. */
    constructor (ghost L: Layout, sb: seq<byte>, geo: Geometry, bgdt: seq<byte>, disk: seq<seq<byte>>, ghost v: View)
      requires geo == L.geo && DiskOk(L, disk) && |sb| == SB_SIZE && GD_SIZE * geo.groups <= |bgdt|
      requires Rep(Bytes3(L, sb, bgdt, disk), v)
      ensures Valid() && this.sb == sb && this.bgdt == bgdt && this.disk == disk && view == v
    {
      this.L, this.geo, this.sb, this.bgdt, this.disk, view := L, geo, sb, bgdt, disk, v;
    }

    method ReadBlock(no: nat, buf: array<byte>) returns (res: int)
      requires Shape() && no < |disk| && buf.Length == geo.blockSize
      modifies buf
      ensures no == 0 ==> res == -1 && buf[..] == old(buf[..])
      ensures no != 0 ==> res == geo.blockSize && buf[..] == disk[no]
    {
      if no == 0 {
        return -1;
      }
      var block := disk[no];
      forall i | 0 <= i < buf.Length {
        buf[i] := block[i];
      }
      res := geo.blockSize;
    }

    method WriteBlock(no: nat, buf: array<byte>) returns (res: int)
      requires Shape() && no < |disk| && buf.Length == geo.blockSize
      modifies this`disk
      ensures Shape()
      ensures no == 0 ==> res == -1 && disk == old(disk)
      ensures no != 0 ==> res == geo.blockSize && disk == old(disk)[no := buf[..]]
    {
      if no == 0 {
        return -1;
      }
      disk := disk[no := buf[..]];
      res := geo.blockSize;
    }

    method WriteSuperblock()
      requires Shape()
      modifies this`disk
      ensures Shape() && SbBytes(Img()) == sb
      ensures SameBut(L, old(disk), disk, Header)
    {
      var b := if geo.blockSize == 1024 then 1 else 0;
      var off := if geo.blockSize == 1024 then 0 else 1024;
      assert L.HasRole(L.SbBlock(), Super);
      disk := disk[b := Splice(disk[b], off, sb)];
    }

    /** The descriptor table goes out block by block. */
    method FlushTable()
      requires Shape() && |bgdt| == Times(geo.tableBlocks, geo.blockSize)
      modifies this`disk
      ensures Shape() && TableBytes(Img()) == bgdt
      ensures SameBut(L, old(disk), disk, Descriptors)
    {
      hide Plan.Ok, Times, Run;
      RoleCount(L);
      FirstOffset(geo.blockSize, disk, geo.tableBlock);
      var buf := new byte[geo.blockSize];
      var i, off := 0, 0;
      while i < geo.tableBlocks
        invariant i <= geo.tableBlocks && off == Times(i, geo.blockSize)
        invariant Shape() && off <= |bgdt|
        invariant Run(disk, geo.tableBlock, i) == bgdt[..off]
        invariant SameBut(L, old(disk), disk, Descriptors)
      {
        NextOffset(i, geo.tableBlocks, geo.blockSize);
        var chunk := Sub(bgdt, off, geo.blockSize);
        forall k | 0 <= k < buf.Length {
          buf[k] := chunk[k];
        }
        TableRole(L, i);
        assert buf[..] == chunk;
        RunStep(disk, geo.tableBlock, i, bgdt, off, chunk);
        var _ := WriteBlock(geo.tableBlock + i, buf);
        i, off := i + 1, off + geo.blockSize;
      }
      assert bgdt[..off] == bgdt;
    }

    /** The tail the four allocator routines share: write the bitmap, then the group's
        count and the table, then the total and the superblock. The parameter types are
        those of the fields, so a caller has to show that its new counts do not wrap. */
    method Commit(k: Kind, g: nat, buf: array<byte>, count: u16, total: u32)
      requires Shape() && g < geo.groups && buf.Length == geo.blockSize
      requires |bgdt| == Times(geo.tableBlocks, geo.blockSize)
      requires PointerAt(bgdt, g, BitmapOff(k)) == L.BitmapAt(k)[g]
      modifies this`sb, this`bgdt, this`disk
      ensures Shape() && Recounted(old(Img()), Img(), k, g, buf[..], count, total)
    {
      hide Recounted, SameBut, PutCount, CountAt, PointerAt, TotalAt, Put32, TableBytes, SbBytes, Plan.Ok, Times;
      RoleCount(L);
      BitmapRole(L, k, g);
      ghost var w, map' := L.BitmapAt(k)[g], buf[..];
      ghost var m, m1 := Img(), WithBlock(Img(), w, map');
      var _ := WriteBlock(PointerAt(bgdt, g, BitmapOff(k)), buf);
      bgdt := PutCount(bgdt, g, k, count);
      assert disk == m1.disk;
      FlushTable();
      ghost var m2 := Img();
      sb := Put32(sb, TotalOff(k), total);
      WriteSuperblock();
      CommitSteps(m, m1, m2, Img(), k, g, map', count, total);
    }

    /** First fit: the groups in order, in each the 64-bit words of its bitmap in order, in
        the first word that is not full the bits in order. A group whose count is zero is
        not read. On success `buf` holds the bitmap of group g. */
    method FindClear(k: Kind, buf: array<byte>, ghost a: Alloc) returns (found: bool, g: nat, i: nat)
      requires Shape() && Scannable(Img(), a, k) && buf.Length == geo.blockSize
      modifies buf
      ensures found ==> g < |a.maps| && i < 8 * |a.maps[g]| && !Bit(a.maps[g], i) && buf[..] == a.maps[g]
      ensures found ==> forall n: nat :: n < i ==> Bit(a.maps[g], n)
      ensures forall h: nat :: h < (if found then g else |a.counts|) ==> Skipped(a, h)
    {
      found, g, i := false, 0, 0;
      while g < geo.groups
        invariant g <= geo.groups && !found
        invariant forall h: nat :: h < g ==> Skipped(a, h)
      {
        if CountAt(bgdt, g, k) > 0 {
          var _ := ReadBlock(PointerAt(bgdt, g, BitmapOff(k)), buf);
          found, i := FindInWords(buf);
          if found {
            return;
          }
          assert a.maps[g] == buf[..];
          assert Clear(a.maps[g]) == 0;
        }
        g := g + 1;
      }
    }

    method FindInWords(buf: array<byte>) returns (found: bool, i: nat)
      requires buf.Length == geo.blockSize && geo.blockSize % 8 == 0
      ensures found ==> i < 8 * buf.Length && !Bit(buf[..], i) && forall n: nat :: n < i ==> Bit(buf[..], n)
      ensures !found ==> forall n: nat :: n < 8 * buf.Length ==> Bit(buf[..], n)
    {
      found, i := false, 0;
      var j := 0;
      while j < geo.blockSize / 8
        invariant j <= geo.blockSize / 8
        invariant forall n: nat :: n < 64 * j ==> Bit(buf[..], n)
      {
        WordFullBits(buf[..], j);
        if !WordFull(buf[..], j) {
          var b := 0;
          while b < 64
            invariant b <= 64
            invariant forall n: nat :: n < 64 * j + b ==> Bit(buf[..], n)
          {
            i := 64 * j + b;
            if !Bit(buf[..], i) {
              return true, i;
            }
            b := b + 1;
          }
          assert false;
        }
        j := j + 1;
      }
    }

    /** Hand out number no, bit i of group g's bitmap, which `buf` holds. */
    method Mark(k: Kind, buf: array<byte>, g: nat, i: nat, ghost no: nat)
      requires Valid() && buf.Length == geo.blockSize
      requires g < |view.Of(k).maps| && i < 8 * |view.Of(k).maps[g]| && !Bit(view.Of(k).maps[g], i)
      requires buf[..] == view.Of(k).maps[g] && no == Num(L.Per(k), g, i)
      modifies this, buf
      ensures Valid() && view == old(view).With(k, old(view).Of(k).Take(L.Per(k), no))
    {
      hide Rep, Recounted, BitsOk, CountsOk, Bit, SetBit, Num;
      ghost var m, v := Img(), view;
      AllocCounters(m, v, k, g, i, no);
      SetInPlace(buf, i);
      var count, total := CountAt(bgdt, g, k) - 1, TotalAt(sb, k) - 1;
      Commit(k, g, buf, count, total);
      view := v.With(k, v.Of(k).Take(L.Per(k), no));
      MarkRep(m, Img(), v, k, g, i, no, buf[..], count, total);
    }

    /** ext2_alloc_block and ext2_alloc_inode: the lowest free number, or -ENOSPC exactly
        when nothing is free. */
    method Alloc(k: Kind) returns (res: int, no: nat)
      requires Valid()
      modifies this
      ensures Valid()
      ensures old(view).Of(k).free == {} ==> res == ENOSPC && unchanged(this)
      ensures old(view).Of(k).free != {} ==>
                && res == 0 && no in old(view).Of(k).free
                && (forall n :: n in old(view).Of(k).free ==> no <= n)
                && view == old(view).With(k, old(view).Of(k).Take(L.Per(k), no))
    {
      ghost var a := view.Of(k);
      RepScannable(Img(), a, k);
      var buf := new byte[geo.blockSize];
      var found, g, i := FindClear(k, buf, a);
      FirstFit(a, L.Per(k), found, g, i);
      if !found {
        return ENOSPC, 0;
      }
      no := i + Times(g, if k.Blocks? then geo.groupBlocks else geo.groupInodes) + 1;
      AllocSteps(Img(), view, k, g, i, no);
      Mark(k, buf, g, i, no);
      res := 0;
    }

    /** ext2_free_block and ext2_free_inode. */
    method Free(k: Kind, no: nat) returns (res: int)
      requires Valid()
      requires 1 <= no <= Times(geo.groups, L.Per(k)) && no !in view.Of(k).free
      requires k.Blocks? ==> no in view.data
      modifies this
      ensures Valid() && res == 0
      ensures view == old(view).With(k, old(view).Of(k).Give(L.Per(k), no))
    {
      hide Rep, Recounted, BitsOk, CountsOk, Bit, ClearBit, Num, Adjusted;
      ghost var m, v := Img(), view;
      var per := if k.Blocks? then geo.groupBlocks else geo.groupInodes;
      FreeCounters(m, v, k, no);
      var g, i := GroupOf(per, no), IndexOf(per, no);
      var buf := new byte[geo.blockSize];
      var _ := ReadBlock(PointerAt(bgdt, g, BitmapOff(k)), buf);
      assert Bit(buf[..], i);
      ClearInPlace(buf, i);
      var count, total := CountAt(bgdt, g, k) + 1, TotalAt(sb, k) + 1;
      Commit(k, g, buf, count, total);
      view := v.With(k, v.Of(k).Give(L.Per(k), no));
      UnmarkRep(m, Img(), v, k, no, buf[..], count, total);
      res := 0;
    }

    /** Reading a data block (or block 0, which is refused). */
    method Load(no: nat, buf: array<byte>) returns (res: int)
      requires Valid() && (no == 0 || no in view.data) && buf.Length == geo.blockSize
      modifies buf
      ensures no == 0 ==> res == -1 && buf[..] == old(buf[..])
      ensures no in view.data ==> res == geo.blockSize && buf[..] == view.data[no]
    {
      res := ReadBlock(no, buf);
    }

    /** Writing a data block. */
    method Store(no: nat, buf: array<byte>) returns (res: int)
      requires Valid() && no in view.data && buf.Length == geo.blockSize
      modifies this
      ensures Valid() && res == geo.blockSize && view == old(view).(data := old(view).data[no := buf[..]])
    {
      hide Rep, Plan.Ok;
      ghost var m, v := Img(), view;
      DataBlock(m, v, no);
      WriteDataRep(m, v, no, buf[..]);
      res := WriteBlock(no, buf);
      view := v.(data := v.data[no := buf[..]]);
      assert Img() == WithBlock(m, no, buf[..]);
    }

    method ReadInode(ino: nat) returns (inode: Inode)
      requires Valid() && ino in view.table
      ensures inode == view.table[ino]
    {
      InodeAddress(Img(), view, ino);
      var group, idx := GroupOf(geo.groupInodes, ino), IndexOf(geo.groupInodes, ino);
      var buf := new byte[geo.blockSize];
      var _ := ReadBlock(PointerAt(bgdt, group, GD_INODE_TABLE) + SlotBlock(geo, idx), buf);
      inode := Decode(Sub(buf[..], SlotOff(geo, idx), geo.inodeSize));
    }

    method WriteInode(inode: Inode, ino: nat)
      requires Valid() && ino in view.table && InodeOk(inode, geo.inodeSize)
      modifies this
      ensures Valid() && view == old(view).(table := old(view).table[ino := inode])
    {
      hide Rep, IsInode, GroupOf, IndexOf, SlotOff, SlotBlock, InodeBlock, InodeOff, Encode, PointerAt;
      ghost var m, v := Img(), view;
      InodeAddress(m, v, ino);
      PlaceOf(L, ino);
      WriteInodeRep(m, v, ino, inode);
      var group, idx := GroupOf(geo.groupInodes, ino), IndexOf(geo.groupInodes, ino);
      var block := PointerAt(bgdt, group, GD_INODE_TABLE) + SlotBlock(geo, idx);
      var buf := new byte[geo.blockSize];
      var _ := ReadBlock(block, buf);
      var bytes := Splice(buf[..], SlotOff(geo, idx), Encode(inode));
      forall i | 0 <= i < buf.Length {
        buf[i] := bytes[i];
      }
      assert buf[..] == bytes;
      var _ := WriteBlock(block, buf);
      view := v.(table := v.table[ino := inode]);
      assert Img() == WithInode(m, ino, inode);
    }
  }
}
