/** The packed inode structure and its byte encoding. */
module Inodes {
  import opened Bytes
  import opened Arith

  const DIRECT: nat := 12
  const TYPE_DIR: nat := 0x4000
  const TYPE_REG: nat := 0x8000

  /** `misc` is the 32 bytes from the access time to os_value_1, `tail` everything
      after the first indirect pointer. */
  datatype Inode = Inode(mode: u16, uid: u16, size: u32, misc: seq<byte>, direct: seq<u32>, l1: u32,
                         tail: seq<byte>)

  ghost predicate InodeOk(i: Inode, inodeSize: nat) {
    |i.misc| == 32 && |i.direct| == DIRECT && |i.tail| + 92 == inodeSize
  }

  /** type_perm & 0xF000 */
  function TypeBits(mode: u16): nat {
    (mode / 0x1000) * 0x1000
  }

  predicate IsDir(i: Inode) {
    TypeBits(i.mode) == TYPE_DIR
  }

  predicate IsReg(i: Inode) {
    TypeBits(i.mode) == TYPE_REG
  }

  /** The pointers from the n-th on are 0. */
  ghost predicate ZeroFrom(inode: Inode, n: nat) {
    |inode.direct| == DIRECT && forall k :: n <= k < DIRECT ==> inode.direct[k] == 0
  }

  /** Number of blocks the recorded size spans. */
  function NBlocks(i: Inode, bs: nat): nat
    requires bs > 0
  {
    CeilDiv(i.size, bs)
  }

  function EncodeWords(ws: seq<u32>): (r: seq<byte>)
    ensures |r| == 4 * |ws|
    ensures forall k :: 0 <= k < |ws| ==> U32At(r, 4 * k) == ws[k]
  {
    if ws == [] then [] else
      var n := |ws| - 1;
      var front := EncodeWords(ws[..n]);
      var r := front + Bytes32(ws[n]);
      assert forall k :: 0 <= k < n ==> U32At(r, 4 * k) == U32At(front, 4 * k);
      r
  }

  function DecodeWords(b: seq<byte>, off: nat, n: nat): (r: seq<u32>)
    requires off + 4 * n <= |b|
    ensures |r| == n && forall k :: 0 <= k < n ==> r[k] == U32At(b, off + 4 * k)
  {
    seq(n, k requires 0 <= k < n => U32At(b, off + 4 * k))
  }

  function Encode(i: Inode): (r: seq<byte>)
    requires |i.misc| == 32 && |i.direct| == DIRECT
    ensures |r| == 92 + |i.tail|
  {
    Bytes16(i.mode) + Bytes16(i.uid) + Bytes32(i.size) + i.misc
    + EncodeWords(i.direct) + Bytes32(i.l1) + i.tail
  }

  function Decode(b: seq<byte>): (i: Inode)
    requires |b| >= 92
    ensures InodeOk(i, |b|)
  {
    Inode(U16At(b, 0), U16At(b, 2), U32At(b, 4), b[8..40], DecodeWords(b, 40, DIRECT), U32At(b, 88), b[92..])
  }

  lemma {:induction false} DecodeEncode(i: Inode)
    requires |i.misc| == 32 && |i.direct| == DIRECT
    ensures Decode(Encode(i)) == i
  {
    var b := Encode(i);
    var w := EncodeWords(i.direct);
    assert b[40..88] == w;
    forall k | 0 <= k < DIRECT ensures U32At(b, 40 + 4 * k) == i.direct[k] {
      assert U32At(b, 40 + 4 * k) == U32At(w, 4 * k);
    }
    assert Bytes32(i.l1) == b[88..92];
    assert Bytes32(i.size) == b[4..8];
    assert Bytes16(i.mode) == b[0..2] && Bytes16(i.uid) == b[2..4];
    assert b[8..40] == i.misc && b[92..] == i.tail;
    assert DecodeWords(b, 40, DIRECT) == i.direct;
  }

  /** The fields are where the packed structure has them. */
  lemma {:induction false} FieldsAt(i: Inode)
    requires |i.misc| == 32 && |i.direct| == DIRECT
    ensures var b := Encode(i);
            && U16At(b, 0) == i.mode && U16At(b, 2) == i.uid && U32At(b, 4) == i.size && b[8..40] == i.misc
            && (forall k :: 0 <= k < DIRECT ==> U32At(b, 40 + 4 * k) == i.direct[k])
            && U32At(b, 88) == i.l1 && b[92..] == i.tail
  {
    DecodeEncode(i);
    hide Encode, U16At, U32At, DecodeWords;
    var b := Encode(i);
    forall k | 0 <= k < DIRECT ensures U32At(b, 40 + 4 * k) == i.direct[k] {
      assert DecodeWords(b, 40, DIRECT)[k] == i.direct[k];
    }
  }

  /** Nothing the driver does not interpret is lost: reading and writing back is the identity. */
  lemma {:induction false} EncodeDecode(b: seq<byte>)
    requires |b| >= 92
    ensures Encode(Decode(b)) == b
  {
    var i := Decode(b);
    var w := EncodeWords(i.direct);
    forall k | 0 <= k < 48 ensures w[k] == b[40 + k] {
      var j := k / 4;
      assert U32At(w, 4 * j) == U32At(b, 40 + 4 * j);
      WordsFromBytes(w, 4 * j);
      WordsFromBytes(b, 40 + 4 * j);
      assert w[4 * j..4 * j + 4][k - 4 * j] == b[40 + 4 * j..40 + 4 * j + 4][k - 4 * j];
    }
    assert w == b[40..88];
    WordsFromBytes(b, 0);
    WordsFromBytes(b, 2);
    WordsFromBytes(b, 4);
    WordsFromBytes(b, 88);
  }
}
