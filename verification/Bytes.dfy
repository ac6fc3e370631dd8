/** Bytes, little-endian words and splices: the memory overlays of the packed
    on-disk structures. */
module Bytes {
  type byte = x: int | 0 <= x < 0x100
  type u16 = x: int | 0 <= x < 0x1_0000
  type u32 = x: int | 0 <= x < 0x1_0000_0000

  const U32_LIMIT: int := 0x1_0000_0000

  function Min(a: int, b: int): (r: int)
    ensures r <= a && r <= b && (r == a || r == b)
  {
    if a <= b then a else b
  }

  function Zeros(n: nat): (r: seq<byte>)
    ensures |r| == n && forall i :: 0 <= i < n ==> r[i] == 0
  {
    seq(n, _ => 0)
  }

  /** The n bytes of `s` from `off` on. */
  function Sub(s: seq<byte>, off: nat, n: nat): (r: seq<byte>)
    requires off + n <= |s|
    ensures |r| == n && forall i {:trigger r[i]} :: 0 <= i < n ==> r[i] == s[off + i]
  {
    seq(n, i requires 0 <= i < n => s[off + i])
  }

  /** `s` with the bytes from `off` on overwritten by `d`, as memcpy does. */
  function Splice(s: seq<byte>, off: nat, d: seq<byte>): (r: seq<byte>)
    requires off + |d| <= |s|
    ensures |r| == |s|
    ensures forall i {:trigger r[i]} :: 0 <= i < |s| ==> r[i] == if off <= i < off + |d| then d[i - off] else s[i]
  {
    seq(|s|, i requires 0 <= i < |s| => if off <= i < off + |d| then d[i - off] else s[i])
  }

  function U16At(s: seq<byte>, off: nat): u16
    requires off + 2 <= |s|
  {
    s[off] as int + 0x100 * s[off + 1] as int
  }

  function U32At(s: seq<byte>, off: nat): u32
    requires off + 4 <= |s|
  {
    s[off] as int + 0x100 * s[off + 1] as int
    + 0x1_0000 * s[off + 2] as int + 0x100_0000 * s[off + 3] as int
  }

  function Bytes16(v: u16): (r: seq<byte>)
    ensures |r| == 2 && U16At(r, 0) == v
  {
    [v % 0x100, v / 0x100]
  }

  function Bytes32(v: u32): (r: seq<byte>)
    ensures |r| == 4 && U32At(r, 0) == v
  {
    FourDigits(v);
    [v % 0x100, (v / 0x100) % 0x100, (v / 0x1_0000) % 0x100, v / 0x100_0000]
  }

  lemma {:induction false} FourDigits(v: int)
    requires 0 <= v < U32_LIMIT
    ensures 0 <= v / 0x100_0000 < 0x100
    ensures v % 0x100 + 0x100 * ((v / 0x100) % 0x100) + 0x1_0000 * ((v / 0x1_0000) % 0x100) + 0x100_0000 * (v / 0x100_0000) == v
  {
    var a := v / 0x100;
    var b := a / 0x100;
    assert b == v / 0x1_0000;
    assert b / 0x100 == v / 0x100_0000;
    assert v == v % 0x100 + 0x100 * a && a == a % 0x100 + 0x100 * b && b == b % 0x100 + 0x100 * (b / 0x100);
  }

  function Put16(s: seq<byte>, off: nat, v: u16): (r: seq<byte>)
    requires off + 2 <= |s|
    ensures |r| == |s| && U16At(r, off) == v
    ensures forall i {:trigger r[i]} :: 0 <= i < |s| && !(off <= i < off + 2) ==> r[i] == s[i]
  {
    Splice(s, off, Bytes16(v))
  }

  function Put32(s: seq<byte>, off: nat, v: u32): (r: seq<byte>)
    requires off + 4 <= |s|
    ensures |r| == |s| && U32At(r, off) == v
    ensures forall i {:trigger r[i]} :: 0 <= i < |s| && !(off <= i < off + 4) ==> r[i] == s[i]
  {
    Splice(s, off, Bytes32(v))
  }

  lemma {:induction false} Digits(a: byte, b: byte, c: byte, d: byte)
    ensures var v: int := a as int + 0x100 * b as int + 0x1_0000 * c as int + 0x100_0000 * d as int;
            && v % 0x100 == a && (v / 0x100) % 0x100 == b && (v / 0x1_0000) % 0x100 == c && v / 0x100_0000 == d
  {
    var v: int := a as int + 0x100 * b as int + 0x1_0000 * c as int + 0x100_0000 * d as int;
    assert v / 0x100 == b as int + 0x100 * c as int + 0x1_0000 * d as int;
    assert v / 0x1_0000 == c as int + 0x100 * d as int;
  }

  /** A word is determined by its bytes: writing back what was read changes nothing. */
  lemma {:induction false} WordsFromBytes(s: seq<byte>, off: nat)
    ensures off + 2 <= |s| ==> Bytes16(U16At(s, off)) == s[off..off + 2]
    ensures off + 4 <= |s| ==> Bytes32(U32At(s, off)) == s[off..off + 4]
  {
    if off + 4 <= |s| {
      Digits(s[off], s[off + 1], s[off + 2], s[off + 3]);
    }
  }
}
