/** read, and reading a whole file in chunks. */
module VnodeFiles {
  import opened Arith
  import opened Bytes
  import opened Layout
  import opened Inodes
  import opened State
  import opened Volumes
  import opened Effects
  import opened Files
  import opened Vnodes
  import opened VnodeDirs
  import opened VnodeFind

  // ---- read ----------------------------------------------------------------------------

  lemma {:induction false} RoundBegins(bs: nat, n: nat, i: nat)
    requires bs > 0 && i < CeilDiv(n, bs)
    ensures Times(i, bs) < n
  {
    CeilBounds(n, bs);
    TimesMono(i + 1, CeilDiv(n, bs), bs);
    assert Times(i + 1, bs) == bs + Times(i, bs);
  }

  /** A read inside the file never asks for a block past the end. */
  lemma {:induction false} ReadIndex(inode: Inode, bs: nat, pos: nat, n: nat, i: nat)
    requires bs > 0 && 0 < n && pos + n <= inode.size && i < CeilDiv(n, bs)
    ensures Quot(pos, bs) + i < NBlocks(inode, bs)
  {
    RoundBegins(bs, n, i);
    DivSplit(pos, bs);
    TimesAdd(Quot(pos, bs), i, bs);
    InRange(inode, bs, pos + n - 1);
    DivBound(pos + n - 1, Quot(pos, bs) + i, bs);
  }

  lemma {:induction false} BlockIs(data: Data, inode: Inode, bs: nat, k: nat)
    requires bs > 0 && FileShape(data, inode, bs) && k < NBlocks(inode, bs) && 0 !in data
    ensures PointersOk(data, inode, bs, k) && FoundBlock(data, inode, bs, k) == BlockNo(data, inode, k) != 0
    ensures BlockNo(data, inode, k) in data && |data[BlockNo(data, inode, k)]| == bs
  {
    assert BlockThere(data, BlockNo(data, inode, k), bs);
  }

  /** Byte r of block k. */
  lemma {:induction false} ByteOfBlock(data: Data, inode: Inode, bs: nat, k: nat, r: nat)
    requires bs > 0 && r < bs && BlockNo(data, inode, k) in data && |data[BlockNo(data, inode, k)]| == bs
    ensures ByteAt(data, inode, bs, Times(k, bs) + r) == data[BlockNo(data, inode, k)][r]
  {
    DivUnique(Times(k, bs) + r, k, r, bs);
  }

  /** What the buffer holds after i rounds of the copy loop. */
  ghost predicate CopiedTo(data: Data, inode: Inode, bs: nat, pos: nat, n: nat, was: seq<byte>, now: seq<byte>, i: nat)
    requires bs > 0
  {
    && |now| == |was|
    && forall j {:trigger now[j]} :: 0 <= j < |now| ==>
         now[j] == if i > 0 && j < n && j + Rem(pos, bs) < bs then ByteAt(data, inode, bs, pos + j)
                   else if j < n && bs <= j < Times(i, bs) then ByteAt(data, inode, bs, Times(Quot(pos, bs), bs) + j)
                   else was[j]
  }

  lemma {:induction false} CopyFirst(data: Data, inode: Inode, bs: nat, pos: nat, n: nat, was: seq<byte>, s: seq<byte>)
    requires bs > 0 && n <= |was| && |s| == bs && BlockNo(data, inode, Quot(pos, bs)) in data
    requires s == data[BlockNo(data, inode, Quot(pos, bs))]
    ensures var m := Min(bs - Rem(pos, bs), n);
            CopiedTo(data, inode, bs, pos, n, was, Splice(was, 0, Sub(s, Rem(pos, bs), m)), 1)
  {
    DivSplit(pos, bs);
    TimesOne(bs);
    var m := Min(bs - Rem(pos, bs), n);
    var now := Splice(was, 0, Sub(s, Rem(pos, bs), m));
    forall j | 0 <= j < m ensures now[j] == ByteAt(data, inode, bs, pos + j) {
      ByteOfBlock(data, inode, bs, Quot(pos, bs), Rem(pos, bs) + j);
      assert now[j] == Sub(s, Rem(pos, bs), m)[j];
    }
  }

  lemma {:induction false} CopyNext(data: Data, inode: Inode, bs: nat, pos: nat, n: nat, was: seq<byte>, now: seq<byte>, s: seq<byte>, i: nat)
    requires bs > 0 && n <= |was| && |s| == bs && i > 0 && CopiedTo(data, inode, bs, pos, n, was, now, i)
    requires BlockNo(data, inode, Quot(pos, bs) + i) in data && s == data[BlockNo(data, inode, Quot(pos, bs) + i)]
    requires Times(i, bs) < n
    ensures var m := Min(bs, n - Times(i, bs));
            CopiedTo(data, inode, bs, pos, n, was, Splice(now, Times(i, bs), Sub(s, 0, m)), i + 1)
  {
    assert Times(i + 1, bs) == bs + Times(i, bs);
    TimesMono(1, i, bs);
    TimesOne(bs);
    TimesAdd(Quot(pos, bs), i, bs);
    var m := Min(bs, n - Times(i, bs));
    var d := Sub(s, 0, m);
    var now' := Splice(now, Times(i, bs), d);
    forall j | Times(i, bs) <= j < Times(i, bs) + m ensures now'[j] == ByteAt(data, inode, bs, Times(Quot(pos, bs), bs) + j) {
      ByteOfBlock(data, inode, bs, Quot(pos, bs) + i, j - Times(i, bs));
      assert now'[j] == d[j - Times(i, bs)];
    }
  }

  lemma {:induction false} CopyDone(data: Data, inode: Inode, bs: nat, pos: nat, n: nat, was: seq<byte>, now: seq<byte>, i: nat)
    requires bs > 0 && 0 < i && n <= |was| && n <= Times(i, bs) && CopiedTo(data, inode, bs, pos, n, was, now, i)
    ensures now == Delivered(data, inode, bs, pos, n, was)
  {
    var r := Delivered(data, inode, bs, pos, n, was);
    forall j | 0 <= j < |now| ensures now[j] == r[j] {
    }
  }

  /** memcpy(&buf[to], &src[from], n) */
  method Copy(buf: array<byte>, to: nat, src: array<byte>, from: nat, n: nat)
    requires buf != src && to + n <= buf.Length && from + n <= src.Length
    modifies buf
    ensures buf[..] == Splice(old(buf[..]), to, Sub(src[..], from, n))
  {
    forall i | to <= i < to + n {
      buf[i] := src[from + (i - to)];
    }
  }

  ghost predicate FollowAt(data: Data, inode: Inode, bs: nat, k: nat, i: nat) {
    PointersOk(data, inode, bs, k + i)
  }

  ghost predicate ThereAt(data: Data, inode: Inode, bs: nat, k: nat, i: nat) {
    FoundBlock(data, inode, bs, k + i) != 0
  }

  /** The pointers a read of n bytes follows are 0 or data blocks. */
  ghost predicate Followable(data: Data, inode: Inode, bs: nat, pos: nat, n: nat)
    requires bs > 0
  {
    forall i: nat :: i < CeilDiv(n, bs) ==> FollowAt(data, inode, bs, Quot(pos, bs), i)
  }

  /** The first m blocks from the k-th on are there. */
  ghost predicate Present(data: Data, inode: Inode, bs: nat, k: nat, m: nat) {
    forall i: nat :: i < m ==> ThereAt(data, inode, bs, k, i)
  }

  /** A read that fails at the m-th block, the first that is not there; the buffer has what
      came before. */
  ghost predicate StoppedAt(data: Data, inode: Inode, bs: nat, pos: nat, n: nat, was: seq<byte>, now: seq<byte>, m: nat)
    requires bs > 0
  {
    && m < CeilDiv(n, bs) && Present(data, inode, bs, Quot(pos, bs), m) && !ThereAt(data, inode, bs, Quot(pos, bs), m)
    && CopiedTo(data, inode, bs, pos, n, was, now, m)
  }

  /** How a read comes out: nothing to read, all blocks there, or -EIO exactly if one is not. */
  ghost predicate ReadOutcome(data: Data, inode: Inode, bs: nat, pos: nat, count: nat, was: seq<byte>, now: seq<byte>, res: int)
    requires bs > 0
  {
    var n := ReadCount(inode.size, pos, count);
    if n == 0 then res == -1 && now == was
    else if Present(data, inode, bs, Quot(pos, bs), CeilDiv(n, bs)) then res == n && now == Delivered(data, inode, bs, pos, n, was)
    else res == EIO && exists m: nat :: StoppedAt(data, inode, bs, pos, n, was, now, m)
  }

  /** ext2_vnode_read, from any position. */
  method Read(fs: Volume, of: Ofile, buf: array<byte>, count: nat) returns (res: int)
    requires fs.Valid() && fs.geo.blockSize > 0 && count <= buf.Length
    requires Followable(fs.view.data, of.vnode.inode, fs.geo.blockSize, of.pos, ReadCount(of.vnode.inode.size, of.pos, count))
    modifies buf
    ensures ReadOutcome(fs.view.data, of.vnode.inode, fs.geo.blockSize, of.pos, count, old(buf[..]), buf[..], res)
  {
    hide Rep, CopiedTo, Delivered, Splice, Sub, PointersOk, FoundBlock, ByteAt, BlockNo;
    ghost var data, inode, was := fs.view.data, of.vnode.inode, buf[..];
    var bs, pos := fs.geo.blockSize, of.pos;
    var nread := ReadCount(of.vnode.inode.size, pos, count);
    if nread == 0 {
      return -1;
    }
    NoBlockZero(fs);
    VolumeSane(fs);
    var blockNumber := Quot(pos, bs);
    var nblocks := CeilDiv(nread, bs);
    CeilBounds(nread, bs);
    var block := new byte[bs];
    var i := 0;
    CopiedNone(data, inode, bs, pos, nread, was);
    while i < nblocks
      invariant i <= nblocks && CopiedTo(data, inode, bs, pos, nread, was, buf[..], i) && Present(data, inode, bs, blockNumber, i)
    {
      RoundBegins(bs, nread, i);
      assert FollowAt(data, inode, bs, blockNumber, i);
      var read := ReadInodeBlock(fs, of.vnode.inode, blockNumber + i, block);
      if read < 0 {
        assert StoppedAt(data, inode, bs, pos, nread, was, buf[..], i);
        return EIO;
      }
      FoundIs(data, inode, bs, blockNumber + i);
      if i == 0 {
        CopiedAtZero(data, inode, bs, pos, nread, was, buf[..]);
        var ncpy := Min(bs - Rem(pos, bs), nread);
        CopyFirst(data, inode, bs, pos, nread, was, block[..]);
        Copy(buf, 0, block, Rem(pos, bs), ncpy);
      } else {
        var ncpy := Min(bs, nread - Times(i, bs));
        CopyNext(data, inode, bs, pos, nread, was, buf[..], block[..], i);
        Copy(buf, Times(i, bs), block, 0, ncpy);
      }
      i := i + 1;
    }
    CopyDone(data, inode, bs, pos, nread, was, buf[..], i);
    res := nread;
  }

  lemma {:induction false} FoundIs(data: Data, inode: Inode, bs: nat, k: nat)
    requires PointersOk(data, inode, bs, k) && FoundBlock(data, inode, bs, k) != 0
    ensures FoundBlock(data, inode, bs, k) == BlockNo(data, inode, k) && BlockNo(data, inode, k) in data
  {
  }

  /** Inside the file every block is there. */
  lemma {:induction false} InsidePresent(data: Data, inode: Inode, bs: nat, pos: nat, count: nat)
    requires bs > 0 && FileShape(data, inode, bs) && pos <= inode.size && 0 !in data
    ensures var n := ReadCount(inode.size, pos, count);
            Followable(data, inode, bs, pos, n) && Present(data, inode, bs, Quot(pos, bs), CeilDiv(n, bs))
  {
    hide FileShape, PointersOk, FoundBlock, BlockNo;
    var n := ReadCount(inode.size, pos, count);
    forall i: nat | i < CeilDiv(n, bs)
      ensures FollowAt(data, inode, bs, Quot(pos, bs), i) && ThereAt(data, inode, bs, Quot(pos, bs), i)
    {
      RoundBegins(bs, n, i);
      ReadIndex(inode, bs, pos, n, i);
      BlockIs(data, inode, bs, Quot(pos, bs) + i);
    }
  }

  /** Behind the end of a file whose further pointers are 0 (as after another descriptor's
      truncate) a read succeeds exactly if it stays in the blocks the file has: it then
      returns what the last block holds there. */
  lemma {:induction false} PastEndExact(data: Data, inode: Inode, bs: nat, pos: nat, n: nat)
    requires bs > 0 && FileShape(data, inode, bs) && NBlocks(inode, bs) <= DIRECT && pos > inode.size && n > 0 && 0 !in data
    requires forall k :: NBlocks(inode, bs) <= k < DIRECT ==> inode.direct[k] == 0
    requires inode.l1 == 0
    ensures Followable(data, inode, bs, pos, n)
    ensures Present(data, inode, bs, Quot(pos, bs), CeilDiv(n, bs)) <==> Quot(pos, bs) + CeilDiv(n, bs) <= NBlocks(inode, bs)
  {
    hide FileShape, PointersOk, FoundBlock;
    var k, m := Quot(pos, bs), CeilDiv(n, bs);
    CeilBounds(n, bs);
    TimesZero(bs);
    forall i: nat ensures FollowAt(data, inode, bs, k, i) && (ThereAt(data, inode, bs, k, i) <==> k + i < NBlocks(inode, bs)) {
      SparseBlock(data, inode, bs, k + i);
    }
    if Present(data, inode, bs, k, m) {
      assert ThereAt(data, inode, bs, k, m - 1);
    }
  }

  lemma {:induction false} SparseBlock(data: Data, inode: Inode, bs: nat, i: nat)
    requires bs > 0 && FileShape(data, inode, bs) && NBlocks(inode, bs) <= DIRECT && 0 !in data && inode.l1 == 0
    requires forall k :: NBlocks(inode, bs) <= k < DIRECT ==> inode.direct[k] == 0
    ensures PointersOk(data, inode, bs, i) && (FoundBlock(data, inode, bs, i) != 0 <==> i < NBlocks(inode, bs))
  {
    if i < NBlocks(inode, bs) {
      BlockIs(data, inode, bs, i);
    }
  }

  lemma {:induction false} CopiedNone(data: Data, inode: Inode, bs: nat, pos: nat, n: nat, was: seq<byte>)
    requires bs > 0
    ensures CopiedTo(data, inode, bs, pos, n, was, was, 0)
  {
  }

  lemma {:induction false} CopiedAtZero(data: Data, inode: Inode, bs: nat, pos: nat, n: nat, was: seq<byte>, now: seq<byte>)
    requires bs > 0 && CopiedTo(data, inode, bs, pos, n, was, now, 0)
    ensures now == was
  {
  }

  /** A chunk size that divides the block size, or is a multiple of it. */
  ghost predicate GoodChunk(chunk: nat, bs: nat)
    requires bs > 0
  {
    chunk > 0 && (Rem(chunk, bs) == 0 || Rem(bs, chunk) == 0)
  }

  /** Reads of good chunks, one after the other, are right. */
  lemma {:induction false} ChunkSafe(chunk: nat, bs: nat, i: nat, n: nat)
    requires bs > 0 && GoodChunk(chunk, bs) && n <= chunk
    ensures ReadSafe(bs, Times(i, chunk), n)
  {
    if Rem(bs, chunk) == 0 {
      DivSplit(bs, chunk);
      SlotInBlock(bs, chunk, Quot(bs, chunk), i);
    } else {
      var q := Quot(chunk, bs);
      DivSplit(chunk, bs);
      TimesIsProduct(i, chunk);
      TimesIsProduct(q, bs);
      TimesIsProduct(i, q);
      TimesIsProduct(Times(i, q), bs);
      Product(i, q, bs);
      DivUnique(Times(i, chunk), Times(i, q), 0, bs);
    }
  }

  lemma {:induction false} Product(a: nat, b: nat, c: nat)
    ensures a * (b * c) == (a * b) * c
  {
  }

  lemma {:induction false} ReadRight(data: Data, inode: Inode, bs: nat, pos: nat, n: nat, was: seq<byte>)
    requires bs > 0 && pos + n <= inode.size && ReadSafe(bs, pos, n) && n <= |was|
    ensures Delivered(data, inode, bs, pos, n, was)[..n] == FileBytes(data, inode, bs)[pos..pos + n]
  {
    ReadExact(data, inode, bs, pos, n);
    var r, q := Delivered(data, inode, bs, pos, n, was), Delivered(data, inode, bs, pos, n, was[..n]);
    forall j | 0 <= j < n ensures r[j] == q[j] {
    }
    assert r[..n] == q;
  }

  /** vfs_read: a read that delivered something moves the position. */
  method VfsRead(fs: Volume, of: Ofile, buf: array<byte>, count: nat) returns (res: int)
    requires fs.Valid() && fs.geo.blockSize > 0 && count <= buf.Length
    requires Followable(fs.view.data, of.vnode.inode, fs.geo.blockSize, of.pos, ReadCount(of.vnode.inode.size, of.pos, count))
    modifies buf, of
    ensures ReadOutcome(fs.view.data, of.vnode.inode, fs.geo.blockSize, old(of.pos), count, old(buf[..]), buf[..], res)
    ensures of.pos == old(of.pos) + if res > 0 then res else 0
  {
    hide Rep, ReadOutcome, Followable;
    res := Read(fs, of, buf, count);
    if res > 0 {
      of.pos := of.pos + res;
    }
  }

  /** Reading from the start in chunks until nothing more comes, as `cat` does, yields the
      whole file. */
  method Cat(fs: Volume, vn: Vnode, chunk: nat) returns (all: seq<byte>)
    requires fs.Valid() && fs.geo.blockSize > 0 && FileShape(fs.view.data, vn.inode, fs.geo.blockSize)
    requires GoodChunk(chunk, fs.geo.blockSize)
    ensures all == FileBytes(fs.view.data, vn.inode, fs.geo.blockSize)
  {
    hide Rep, FileShape, Delivered, ReadSafe, GoodChunk, FileBytes, Times;
    ghost var data, inode, bs := fs.view.data, vn.inode, fs.geo.blockSize;
    ghost var file := FileBytes(data, inode, bs);
    var of := new Ofile(vn);
    var buf := new byte[chunk];
    all := [];
    ghost var i := 0;
    TimesZero(chunk);
    var res := VfsReadChunk(fs, of, buf, chunk, i);
    while res > 0
      invariant fs.view.data == data && of.vnode == vn && vn.inode == inode && fs.Valid()
      invariant |all| <= of.pos <= |file| && all == file[..|all|]
      invariant res > 0 ==> res <= buf.Length && of.pos == |all| + res && buf[..res] == file[|all|..of.pos]
      invariant res <= 0 ==> |all| == |file|
      invariant of.pos == Times(i + 1, chunk) || of.pos == |file|
      decreases |file| - |all|, res
    {
      all := all + buf[..res];
      i := i + 1;
      res := VfsReadChunk(fs, of, buf, chunk, i);
    }
    assert file[..|file|] == file;
  }

  lemma {:induction false} TimesZero(b: nat)
    ensures Times(0, b) == 0
  {
  }

  /** The i-th chunk. */
  method VfsReadChunk(fs: Volume, of: Ofile, buf: array<byte>, chunk: nat, ghost i: nat) returns (res: int)
    requires fs.Valid() && fs.geo.blockSize > 0 && FileShape(fs.view.data, of.vnode.inode, fs.geo.blockSize)
    requires GoodChunk(chunk, fs.geo.blockSize) && buf.Length == chunk
    requires of.pos <= of.vnode.inode.size && (of.pos == Times(i, chunk) || of.pos == of.vnode.inode.size)
    modifies buf, of
    ensures of.pos <= of.vnode.inode.size && (of.pos == Times(i + 1, chunk) || of.pos == of.vnode.inode.size)
    ensures res <= 0 ==> of.pos == old(of.pos) == of.vnode.inode.size
    ensures res > 0 ==>
              && res <= chunk && of.pos == old(of.pos) + res
              && buf[..res] == FileBytes(fs.view.data, of.vnode.inode, fs.geo.blockSize)[old(of.pos)..of.pos]
  {
    hide Rep, FileShape, Delivered, ReadSafe, FileBytes, Times, Followable, Present;
    ghost var n, was := ReadCount(of.vnode.inode.size, of.pos, chunk), buf[..];
    if of.pos < of.vnode.inode.size {
      ChunkSafe(chunk, fs.geo.blockSize, i, n);
      ReadRight(fs.view.data, of.vnode.inode, fs.geo.blockSize, of.pos, n, was);
    }
    ChunkNext(i, chunk);
    NoBlockZero(fs);
    InsidePresent(fs.view.data, of.vnode.inode, fs.geo.blockSize, of.pos, chunk);
    res := VfsRead(fs, of, buf, chunk);
  }

  lemma {:induction false} ChunkNext(i: nat, chunk: nat)
    ensures Times(i + 1, chunk) == chunk + Times(i, chunk)
  {
  }
}
