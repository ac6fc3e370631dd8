/** Looking names up and listing directories. */
module VnodeFind {
  import opened Arith
  import opened Bytes
  import opened Inodes
  import opened State
  import opened Volumes
  import opened Dirents
  import opened DirBlocks
  import opened Listings
  import opened Effects
  import opened Vnodes
  import opened VnodeDirs

  /** ext2_vnode_find. The entries stand for inodes the volume has. */
  method Find(fs: Volume, dir: Vnode, name: Name) returns (res: int, found: Vnode?)
    requires fs.Valid() && fs.geo.blockSize > 0 && DirShape(fs.view.data, dir.inode, fs.geo.blockSize)
    requires forall e :: e in ListingOf(fs.view.data, dir.inode, fs.geo.blockSize) ==> e.ino as nat in fs.view.table
    ensures var ino := Lookup(ListingOf(fs.view.data, dir.inode, fs.geo.blockSize), name);
            && (ino == 0 ==> res == ENOENT && found == null)
            && (ino != 0 ==> res == 0 && found != null && fresh(found) && found.ino == ino && found.Synced(fs))
    ensures Lookup(ListingOf(fs.view.data, dir.inode, fs.geo.blockSize), name) == 0
       <==> Unnamed(ListingOf(fs.view.data, dir.inode, fs.geo.blockSize), name)
  {
    hide DirShape, Rep, Tiled, Entries, PartAt, PointersOk, FoundBlock, Unnamed, Lookup, InUse;
    ghost var data, inode := fs.view.data, dir.inode;
    var bs := fs.geo.blockSize;
    ShapeKnown(data, inode, bs);
    GeometryBounds(fs);
    NoBlockZero(fs);
    ghost var ds := Parts(data, inode, bs);
    FlatInUse(data, inode, bs, |ds|);
    LookupNone(Flat(ds, |ds|), name);
    LookupEmpty(name);
    var buf := new byte[bs];
    var blockCount := NBlocks(dir.inode, bs);
    var index := 0;
    while index < blockCount
      invariant index <= blockCount && Lookup(Flat(ds, index), name) == 0
    {
      DirBlockAt(data, inode, bs, index);
      res := ReadInodeBlock(fs, dir.inode, index, buf);
      var ino := FindInBlock(buf, name);
      LookupNext(data, inode, bs, name, index);
      if ino != 0 {
        LookupStays(data, inode, bs, name, index + 1, blockCount);
        var result := fs.ReadInode(ino);
        found := new Vnode(ino, result);
        return 0, found;
      }
      index := index + 1;
    }
    return ENOENT, null;
  }

  // ---- readdir -------------------------------------------------------------------------

  /** An open file: its vnode and the position in it. */
  class Ofile {
    const vnode: Vnode
    var pos: nat

    constructor (vnode: Vnode)
      ensures this.vnode == vnode && pos == 0
    {
      this.vnode, pos := vnode, 0;
    }
  }

  /** The record at the position, if there is one, is all inside its block. */
  ghost predicate RecordInside(data: Data, inode: Inode, bs: nat, pos: nat)
    requires bs > 0
  {
    pos < inode.size ==>
      && PointersOk(data, inode, bs, Quot(pos, bs))
      && var b, off := FoundBlock(data, inode, bs, Quot(pos, bs)), Rem(pos, bs);
      b != 0 ==>
        && |data[b]| == bs && off + HEADER <= bs
        && (RecLen(data[b], off) != 0 ==> off + HEADER + NameLen(data[b], off) as int <= bs)
  }

  /** ext2_vnode_readdir: one record, and on to the next. */
  method Readdir(fs: Volume, of: Ofile) returns (res: int, ent: Entry)
    requires fs.Valid() && fs.geo.blockSize > 0 && RecordInside(fs.view.data, of.vnode.inode, fs.geo.blockSize, of.pos)
    modifies of
    ensures var inode, bs, pos := of.vnode.inode, fs.geo.blockSize, old(of.pos);
            if pos >= inode.size then res == -1 && of.pos == pos
            else
              var b, off := FoundBlock(fs.view.data, inode, bs, Quot(pos, bs)), Rem(pos, bs);
              if b == 0 then res == EIO && of.pos == pos
              else if RecLen(fs.view.data[b], off) == 0 then res == -1 && of.pos == Quot(pos + bs - 1, bs)
              else res == 0 && ent == EntryAt(fs.view.data[b], off) && of.pos == pos + RecLen(fs.view.data[b], off)
  {
    hide Rep, Sub, RecLen, NameLen, FoundBlock;
    ent := Entry(0, []);
    if of.pos >= of.vnode.inode.size {
      return -1, ent;
    }
    var bs := fs.geo.blockSize;
    NoBlockZero(fs);
    var buf := new byte[bs];
    var read := ReadInodeBlock(fs, of.vnode.inode, Quot(of.pos, bs), buf);
    if read < 0 {
      return EIO, ent;
    }
    var off := Rem(of.pos, bs);
    if RecLen(buf[..], off) == 0 {
      of.pos := Quot(of.pos + bs - 1, bs);
      return -1, ent;
    }
    ent := EntryAt(buf[..], off);
    of.pos := of.pos + RecLen(buf[..], off);
    res := 0;
  }

  /** The directory's blocks, as bytes and as entries. */
  ghost predicate BlocksAre(ss: seq<seq<byte>>, ds: seq<seq<Entry>>, bs: nat) {
    && |ss| == |ds|
    && forall k :: 0 <= k < |ss| ==> |ss[k]| == bs && Tiled(ss[k], 0, bs) && ds[k] == Entries(ss[k], 0, bs)
  }

  /** The position is where the idx-th entry starts, or the end. */
  ghost predicate AtEntry(ss: seq<seq<byte>>, ds: seq<seq<Entry>>, bs: nat, pos: nat, idx: nat)
    requires bs > 0 && BlocksAre(ss, ds, bs)
  {
    var k, off := Quot(pos, bs), Rem(pos, bs);
    if k < |ss| then
      Tiled(ss[k], 0, off) && Tiled(ss[k], off, bs) && idx == |Flat(ds, k)| + |Entries(ss[k], 0, off)|
    else k == |ss| && off == 0 && idx == |Listing(ds)|
  }

  lemma {:induction false} FlatPrefix(ds: seq<seq<Entry>>, k: nat, n: nat)
    requires k <= n <= |ds|
    ensures |Flat(ds, k)| <= |Flat(ds, n)| && Flat(ds, n)[..|Flat(ds, k)|] == Flat(ds, k)
    decreases n
  {
    if k < n {
      FlatPrefix(ds, k, n - 1);
    }
  }

  /** x, the |a|-th of block es, in a listing whose first part is `front` and that block. */
  lemma {:induction false} Within(a: seq<Entry>, x: Entry, b: seq<Entry>, es: seq<Entry>, front: seq<Entry>, upto: seq<Entry>, all: seq<Entry>)
    requires es == a + [x] + b && upto == front + es && |upto| <= |all| && all[..|upto|] == upto
    ensures |front| + |a| < |all| && all[|front| + |a|] == x
  {
    assert upto[|front| + |a|] == es[|a|] == x;
  }

  /** A block around the record at `off`. */
  lemma {:induction false} AroundRecord(s: seq<byte>, off: nat)
    requires Tiled(s, 0, off) && Tiled(s, off, |s|) && off < |s|
    ensures RecordOk(s, off, |s|) && HEADER + NameLen(s, off) as int <= RecLen(s, off)
    ensures var next := off + RecLen(s, off);
            && off < next <= |s| && Tiled(s, 0, next) && Tiled(s, next, |s|) && Tiled(s, 0, |s|)
            && |Entries(s, 0, next)| == |Entries(s, 0, off)| + 1
            && Entries(s, 0, |s|) == Entries(s, 0, off) + [EntryAt(s, off)] + Entries(s, next, |s|)
  {
    FirstRecord(s, off, |s|);
    RecordBounds(s, off, |s|);
    hide *;
    TiledConcat(s, 0, off, off + RecLen(s, off));
    TiledConcat(s, 0, off, |s|);
    Assoc(Entries(s, 0, off), [EntryAt(s, off)], Entries(s, off + RecLen(s, off), |s|));
  }

  /** Where an entry of block k stands in the listing. */
  lemma {:induction false} PlaceInListing(ds: seq<seq<Entry>>, k: nat, s: seq<byte>, off: nat)
    requires k < |ds| && Tiled(s, 0, off) && Tiled(s, off, |s|) && off < |s| && Tiled(s, 0, |s|)
    requires ds[k] == Entries(s, 0, |s|)
    ensures RecordOk(s, off, |s|)
    ensures var idx := |Flat(ds, k)| + |Entries(s, 0, off)|; idx < |Listing(ds)| && Listing(ds)[idx] == EntryAt(s, off)
  {
    hide *;
    AroundRecord(s, off);
    FlatNext(ds, k);
    FlatPrefix(ds, k + 1, |ds|);
    ListingIsFlat(ds);
    Within(Entries(s, 0, off), EntryAt(s, off), Entries(s, off + RecLen(s, off), |s|), ds[k],
           Flat(ds, k), Flat(ds, k + 1), Listing(ds));
  }

  lemma {:induction false} FlatNext(ds: seq<seq<Entry>>, k: nat)
    requires k < |ds|
    ensures Flat(ds, k + 1) == Flat(ds, k) + ds[k]
  {
  }

  lemma {:induction false} ListingIsFlat(ds: seq<seq<Entry>>)
    ensures Listing(ds) == Flat(ds, |ds|)
  {
  }

  /** The start of a block is the start of an entry, or the end. */
  lemma {:induction false} NextBlock(ss: seq<seq<byte>>, ds: seq<seq<Entry>>, bs: nat, k: nat)
    requires bs > 0 && BlocksAre(ss, ds, bs) && k <= |ss|
    ensures AtEntry(ss, ds, bs, Times(k, bs), |Flat(ds, k)|)
  {
    DivUnique(Times(k, bs), k, 0, bs);
    if k < |ss| {
      assert Tiled(ss[k], 0, 0) && Entries(ss[k], 0, 0) == [];
    }
  }

  lemma {:induction false} AtRecord(ss: seq<seq<byte>>, ds: seq<seq<Entry>>, bs: nat, pos: nat, k: nat, off: nat)
    requires bs > 0 && BlocksAre(ss, ds, bs) && k < |ss| && pos == Times(k, bs) + off && off < bs
    requires Tiled(ss[k], 0, off) && Tiled(ss[k], off, bs)
    ensures AtEntry(ss, ds, bs, pos, |Flat(ds, k)| + |Entries(ss[k], 0, off)|)
  {
    DivUnique(pos, k, off, bs);
  }

  lemma {:induction false} AtEntryMeans(ss: seq<seq<byte>>, ds: seq<seq<Entry>>, bs: nat, pos: nat, idx: nat)
    requires bs > 0 && BlocksAre(ss, ds, bs) && AtEntry(ss, ds, bs, pos, idx) && Quot(pos, bs) < |ss|
    ensures var s, off := ss[Quot(pos, bs)], Rem(pos, bs);
            && |s| == bs && Tiled(s, 0, off) && Tiled(s, off, bs) && Tiled(s, 0, bs)
            && |ss| == |ds| && ds[Quot(pos, bs)] == Entries(s, 0, bs)
            && idx == |Flat(ds, Quot(pos, bs))| + |Entries(s, 0, off)|
  {
  }

  lemma {:induction false} TimesNext(k: nat, bs: nat)
    ensures Times(k + 1, bs) == bs + Times(k, bs)
  {
  }

  /** At an entry readdir delivers it and moves to where the next one starts, without
      leaving the block except for the start of the next. */
  lemma {:induction false} NextEntry(ss: seq<seq<byte>>, ds: seq<seq<Entry>>, bs: nat, pos: nat, idx: nat)
    requires bs > 0 && BlocksAre(ss, ds, bs) && AtEntry(ss, ds, bs, pos, idx) && Quot(pos, bs) < |ss|
    ensures var s, off := ss[Quot(pos, bs)], Rem(pos, bs);
            && |s| == bs && off < bs && RecordOk(s, off, bs)
            && idx < |Listing(ds)| && EntryAt(s, off) == Listing(ds)[idx]
            && AtEntry(ss, ds, bs, pos + RecLen(s, off), idx + 1)
            && pos + RecLen(s, off) <= Times(Quot(pos, bs) + 1, bs)
  {
    hide *;
    var k, off := Quot(pos, bs), Rem(pos, bs);
    AtEntryMeans(ss, ds, bs, pos, idx);
    AroundRecord(ss[k], off);
    PlaceInListing(ds, k, ss[k], off);
    DivSplit(pos, bs);
    TimesNext(k, bs);
    StepOver(ss, ds, bs, pos, k, off);
  }

  lemma {:induction false} StepOver(ss: seq<seq<byte>>, ds: seq<seq<Entry>>, bs: nat, pos: nat, k: nat, off: nat)
    requires bs > 0 && BlocksAre(ss, ds, bs) && k < |ss| == |ds| && pos == Times(k, bs) + off && off < bs
    requires |ss[k]| == bs && Tiled(ss[k], 0, off) && Tiled(ss[k], off, bs) && Tiled(ss[k], 0, bs) && ds[k] == Entries(ss[k], 0, bs)
    ensures RecordOk(ss[k], off, bs)
    ensures AtEntry(ss, ds, bs, pos + RecLen(ss[k], off), |Flat(ds, k)| + |Entries(ss[k], 0, off)| + 1)
  {
    hide *;
    AroundRecord(ss[k], off);
    TimesNext(k, bs);
    var next := off + RecLen(ss[k], off);
    if next < bs {
      AtRecord(ss, ds, bs, pos + RecLen(ss[k], off), k, next);
    } else {
      FlatNext(ds, k);
      NextBlock(ss, ds, bs, k + 1);
    }
  }

  ghost function DirBytes(data: Data, inode: Inode, bs: nat): (ss: seq<seq<byte>>)
    requires bs > 0 && DirShape(data, inode, bs)
    ensures |ss| == NBlocks(inode, bs) && BlocksAre(ss, Parts(data, inode, bs), bs)
    ensures forall k :: 0 <= k < |ss| ==> k < |inode.direct| && inode.direct[k] as nat in data && ss[k] == data[inode.direct[k] as nat]
  {
    assert forall k :: 0 <= k < NBlocks(inode, bs) ==> BlockTiled(data, inode.direct[k], bs);
    seq(NBlocks(inode, bs), k requires 0 <= k < NBlocks(inode, bs) =>
      assert BlockTiled(data, inode.direct[k], bs); data[inode.direct[k] as nat])
  }

  /** What readdir finds at an entry's position: a whole record, or at the end nothing. */
  lemma {:induction false} EntryInside(data: Data, inode: Inode, bs: nat, pos: nat, idx: nat)
    requires bs > 0 && DirShape(data, inode, bs) && 0 !in data
    requires AtEntry(DirBytes(data, inode, bs), Parts(data, inode, bs), bs, pos, idx)
    ensures RecordInside(data, inode, bs, pos)
    ensures var ss, k := DirBytes(data, inode, bs), Quot(pos, bs);
            && (pos < inode.size <==> k < |ss|)
            && (k == |ss| ==> idx == |Listing(Parts(data, inode, bs))|)
            && (k < |ss| ==> FoundBlock(data, inode, bs, k) != 0 && FoundBlock(data, inode, bs, k) in data
                             && ss[k] == data[FoundBlock(data, inode, bs, k)]
                             && RecordOk(ss[k], Rem(pos, bs), bs))
            && k <= |ss|
  {
    DivBound(pos, NBlocks(inode, bs), bs);
    var ss := DirBytes(data, inode, bs);
    if Quot(pos, bs) < |ss| {
      DirBlockAt(data, inode, bs, Quot(pos, bs));
      AroundRecord(ss[Quot(pos, bs)], Rem(pos, bs));
    }
  }

  /** The loop of `ls`: readdir from the start until it fails lists every entry of the
      directory exactly once, in block order. */
  method List(fs: Volume, dir: Vnode) returns (es: seq<Entry>)
    requires fs.Valid() && fs.geo.blockSize > 0 && DirShape(fs.view.data, dir.inode, fs.geo.blockSize)
    ensures es == ListingOf(fs.view.data, dir.inode, fs.geo.blockSize)
  {
    hide DirShape, AtEntry, Rep, RecordInside, FoundBlock, RecordOk, PointersOk, RecLen, NameLen, EntryAt, NBlocks, Quot, Rem, BlocksAre;
    ghost var data, inode, bs := fs.view.data, dir.inode, fs.geo.blockSize;
    ghost var ss, ds := DirBytes(data, inode, bs), Parts(data, inode, bs);
    NoBlockZero(fs);
    NextBlock(ss, ds, bs, 0);
    es := [];
    var of := new Ofile(dir);
    ghost var pos := 0;
    var res, ent := ReaddirAt(fs, of, ss, ds, 0);
    while res == 0
      invariant fs.view.data == data && of.vnode == dir && dir.inode == inode && fs.Valid()
      invariant |es| <= |Listing(ds)| && es == Listing(ds)[..|es|]
      invariant res == 0 ==> |es| < |Listing(ds)| && ent == Listing(ds)[|es|] && AtEntry(ss, ds, bs, of.pos, |es| + 1)
      invariant res != 0 ==> |es| == |Listing(ds)|
      decreases |Listing(ds)| - |es|, if res == 0 then 1 else 0
    {
      es := es + [ent];
      res, ent := ReaddirAt(fs, of, ss, ds, |es|);
    }
  }

  /** readdir at the idx-th entry: that entry, or failure behind the last one. */
  method ReaddirAt(fs: Volume, of: Ofile, ghost ss: seq<seq<byte>>, ghost ds: seq<seq<Entry>>, ghost idx: nat) returns (res: int, ent: Entry)
    requires fs.Valid() && fs.geo.blockSize > 0 && DirShape(fs.view.data, of.vnode.inode, fs.geo.blockSize)
    requires ss == DirBytes(fs.view.data, of.vnode.inode, fs.geo.blockSize) && ds == Parts(fs.view.data, of.vnode.inode, fs.geo.blockSize)
    requires BlocksAre(ss, ds, fs.geo.blockSize) && AtEntry(ss, ds, fs.geo.blockSize, of.pos, idx)
    modifies of
    ensures idx <= |Listing(ds)|
    ensures idx < |Listing(ds)| ==> res == 0 && ent == Listing(ds)[idx] && AtEntry(ss, ds, fs.geo.blockSize, of.pos, idx + 1)
                                    && of.pos > old(of.pos)
    ensures idx == |Listing(ds)| ==> res == -1 && of.pos == old(of.pos)
  {
    hide DirShape, AtEntry, Rep, RecordInside, FoundBlock, PointersOk, EntryAt, NBlocks, Quot, Rem, BlocksAre, RecLen;
    NoBlockZero(fs);
    EntryInside(fs.view.data, of.vnode.inode, fs.geo.blockSize, of.pos, idx);
    if of.pos < of.vnode.inode.size {
      NextEntry(ss, ds, fs.geo.blockSize, of.pos, idx);
    }
    res, ent := Readdir(fs, of);
  }
}
