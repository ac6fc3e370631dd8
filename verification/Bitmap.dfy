/** Usage bitmaps. Bit k of 64-bit word j is bit number 64*j + k of the block; on the
    little-endian layout of the device that is bit (k % 8) of byte 8*j + k/8. */
module Bitmap {
  import opened Arith
  import opened Bytes

  /** 1 << k */
  function Weight(k: nat): (w: nat)
    ensures w > 0
  {
    if k == 0 then 1 else 2 * Weight(k - 1)
  }

  /** x & (1 << k) */
  predicate NatBit(x: nat, k: nat) {
    if k == 0 then x % 2 == 1 else NatBit(x / 2, k - 1)
  }

  predicate Bit(s: seq<byte>, n: nat)
    requires n < 8 * |s|
  {
    NatBit(s[n / 8], n % 8)
  }

  /** The word test of the search loops: no bit of word j is clear. */
  predicate WordFull(s: seq<byte>, j: nat)
    requires 8 * j + 8 <= |s|
  {
    forall i :: 8 * j <= i < 8 * j + 8 ==> s[i] == 0xFF
  }

  lemma {:induction false} OrBit(x: nat, k: nat, i: nat)
    requires !NatBit(x, k)
    ensures NatBit(x + Weight(k), i) == (NatBit(x, i) || i == k)
  {
    if k > 0 {
      assert (x + Weight(k)) / 2 == x / 2 + Weight(k - 1);
      if i > 0 {
        OrBit(x / 2, k - 1, i - 1);
      }
    } else if i > 0 {
      assert (x + 1) / 2 == x / 2;
    }
  }

  lemma {:induction false} AndNotBit(x: nat, k: nat, i: nat)
    requires NatBit(x, k)
    ensures Weight(k) <= x
    ensures NatBit(x - Weight(k), i) == (NatBit(x, i) && i != k)
  {
    if k > 0 {
      AndNotBit(x / 2, k - 1, if i > 0 then i - 1 else 0);
      assert (x - Weight(k)) / 2 == x / 2 - Weight(k - 1);
    } else if i > 0 {
      assert (x - 1) / 2 == x / 2;
    }
  }

  /** Setting one of the low m bits stays below 1 << m. */
  lemma {:induction false} OrFits(x: nat, k: nat, m: nat)
    requires k < m && x < Weight(m) && !NatBit(x, k)
    ensures x + Weight(k) < Weight(m)
  {
    assert Weight(m) == 2 * Weight(m - 1);
    if k > 0 {
      OrFits(x / 2, k - 1, m - 1);
      assert Weight(k) == 2 * Weight(k - 1);
    }
  }

  lemma {:induction false} FullBit(m: nat, k: nat)
    requires k < m
    ensures NatBit(Weight(m) - 1, k)
  {
    assert Weight(m) - 1 == 2 * (Weight(m - 1) - 1) + 1;
    if k > 0 {
      FullBit(m - 1, k - 1);
    }
  }

  /** The lowest clear bit among the low m, if any. */
  lemma {:induction false} ClearBitOf(x: nat, m: nat) returns (k: nat)
    requires x < Weight(m) - 1
    ensures k < m && !NatBit(x, k)
  {
    if x % 2 == 0 {
      k := 0;
    } else {
      k := ClearBitOf(x / 2, m - 1);
      k := k + 1;
    }
  }

  lemma {:induction false} ByteWeight()
    ensures Weight(8) == 0x100
  {
    assert Weight(4) == 16;
  }

  /** `bits |= 1 << n` */
  function SetBit(s: seq<byte>, n: nat): (r: seq<byte>)
    requires n < 8 * |s|
    ensures |r| == |s|
    ensures forall i: nat :: i < 8 * |s| ==> Bit(r, i) == (Bit(s, i) || i == n)
  {
    if Bit(s, n) then s else
      var x, k := s[n / 8], n % 8;
      assert x + Weight(k) < 0x100 by { ByteWeight(); OrFits(x, k, 8); }
      var r := s[n / 8 := x + Weight(k)];
      assert forall i: nat :: i < 8 * |s| ==> Bit(r, i) == (Bit(s, i) || i == n) by {
        forall i: nat | i < 8 * |s| ensures Bit(r, i) == (Bit(s, i) || i == n) {
          OrBit(x, k, i % 8);
        }
      }
      r
  }

  /** `bits &= ~(1 << n)` */
  function ClearBit(s: seq<byte>, n: nat): (r: seq<byte>)
    requires n < 8 * |s|
    ensures |r| == |s|
    ensures forall i: nat :: i < 8 * |s| ==> Bit(r, i) == (Bit(s, i) && i != n)
  {
    if !Bit(s, n) then s else
      var x, k := s[n / 8], n % 8;
      assert Weight(k) <= x by { AndNotBit(x, k, 0); }
      var r := s[n / 8 := x - Weight(k)];
      assert forall i: nat :: i < 8 * |s| ==> Bit(r, i) == (Bit(s, i) && i != n) by {
        forall i: nat | i < 8 * |s| ensures Bit(r, i) == (Bit(s, i) && i != n) {
          AndNotBit(x, k, i % 8);
        }
      }
      r
  }

  /** The 64-bit test agrees with its 64 bits. */
  lemma {:induction false} WordFullBits(s: seq<byte>, j: nat)
    requires 8 * j + 8 <= |s|
    ensures WordFull(s, j) <==> forall n: nat :: 64 * j <= n < 64 * j + 64 ==> Bit(s, n)
  {
    ByteWeight();
    if WordFull(s, j) {
      forall n: nat | 64 * j <= n < 64 * j + 64 ensures Bit(s, n) {
        FullBit(8, n % 8);
      }
    } else {
      var i :| 8 * j <= i < 8 * j + 8 && s[i] != 0xFF;
      var k := ClearBitOf(s[i], 8);
      assert !Bit(s, 8 * i + k);
    }
  }

  /** The number of clear bits among the first n. */
  function CountClear(s: seq<byte>, n: nat): (c: nat)
    requires n <= 8 * |s|
    ensures c <= n
    ensures c == 0 <==> forall i: nat :: i < n ==> Bit(s, i)
  {
    if n == 0 then 0 else CountClear(s, n - 1) + if Bit(s, n - 1) then 0 else 1
  }

  lemma {:induction false} CountClearChange(s: seq<byte>, r: seq<byte>, n: nat, i: nat)
    requires n <= 8 * |s| == 8 * |r| && i < 8 * |s| && !Bit(s, i) && Bit(r, i)
    requires forall k: nat :: k < 8 * |s| && k != i ==> Bit(s, k) == Bit(r, k)
    ensures CountClear(s, n) == CountClear(r, n) + if i < n then 1 else 0
  {
    hide Bit;
    if n > 0 {
      CountClearChange(s, r, n - 1, i);
    }
  }

  /** Bits that are all set above `m` do not count. */
  lemma {:induction false} CountClearPadding(s: seq<byte>, m: nat, n: nat)
    requires m <= n <= 8 * |s|
    requires forall i: nat :: m <= i < n ==> Bit(s, i)
    ensures CountClear(s, n) == CountClear(s, m)
  {
    hide Bit;
    if m < n {
      CountClearPadding(s, m, n - 1);
    }
  }

  /** A number below 1 << m is determined by its low m bits. */
  lemma {:induction false} BitsDetermine(x: nat, y: nat, m: nat)
    requires x < Weight(m) && y < Weight(m)
    requires forall k: nat :: k < m ==> NatBit(x, k) == NatBit(y, k)
    ensures x == y
  {
    if m > 0 {
      assert NatBit(x, 0) == NatBit(y, 0);
      forall k: nat | k < m - 1 ensures NatBit(x / 2, k) == NatBit(y / 2, k) {
        assert NatBit(x, k + 1) == NatBit(y, k + 1);
      }
      BitsDetermine(x / 2, y / 2, m - 1);
    }
  }

  lemma {:induction false} BytesDetermined(s: seq<byte>, r: seq<byte>)
    requires |s| == |r| && forall i: nat :: i < 8 * |s| ==> Bit(s, i) == Bit(r, i)
    ensures s == r
  {
    ByteWeight();
    forall j | 0 <= j < |s| ensures s[j] == r[j] {
      forall k: nat | k < 8 ensures NatBit(s[j], k) == NatBit(r[j], k) {
        assert Bit(s, 8 * j + k) == Bit(r, 8 * j + k);
      }
      BitsDetermine(s[j], r[j], 8);
    }
  }

  // ---- the words the source works on ----------------------------------------------------

  /** The j-th 64-bit word, little-endian. */
  function Word(s: seq<byte>, j: nat): (w: nat)
    requires 8 * j + 8 <= |s|
    ensures w < 0x1_0000_0000_0000_0000
  {
    U32At(s, 8 * j) + 0x1_0000_0000 * U32At(s, 8 * j + 4)
  }

  /** The n bytes from `off` on as one number. */
  function Value(s: seq<byte>, off: nat, n: nat): nat
    requires off + n <= |s|
    decreases n
  {
    if n == 0 then 0 else s[off] as nat + 0x100 * Value(s, off + 1, n - 1)
  }

  lemma {:induction false} WordIsValue(s: seq<byte>, j: nat)
    requires 8 * j + 8 <= |s|
    ensures Word(s, j) == Value(s, 8 * j, 8)
  {
    var o := 8 * j;
    assert Value(s, o + 8, 0) == 0;
    assert Value(s, o + 4, 4) == U32At(s, o + 4) by {
      assert Value(s, o + 6, 2) == s[o + 6] as nat + 0x100 * s[o + 7] as nat;
    }
    assert Value(s, o + 2, 6) == s[o + 2] as nat + 0x100 * s[o + 3] as nat + 0x1_0000 * Value(s, o + 4, 4);
  }

  /** Two numbers' bits side by side. */
  lemma {:induction false} BitOfSum(x: nat, y: nat, m: nat, k: nat)
    requires x < Weight(m)
    ensures NatBit(x + Weight(m) * y, k) == if k < m then NatBit(x, k) else NatBit(y, k - m)
    decreases m
  {
    if m > 0 {
      var p := Weight(m - 1) * y;
      assert Weight(m) * y == 2 * p;
      assert (x + 2 * p) / 2 == x / 2 + p && (x + 2 * p) % 2 == x % 2;
      if k > 0 {
        BitOfSum(x / 2, y, m - 1, k - 1);
      }
    }
  }

  lemma {:induction false} ValueBit(s: seq<byte>, off: nat, n: nat, k: nat)
    requires off + n <= |s| && k < 8 * n
    ensures NatBit(Value(s, off, n), k) == NatBit(s[off + k / 8], k % 8)
    decreases n
  {
    ByteWeight();
    BitOfSum(s[off], Value(s, off + 1, n - 1), 8, k);
    if k >= 8 {
      ValueBit(s, off + 1, n - 1, k - 8);
    }
  }

  /** x & (1 << k), by division. */
  lemma {:induction false} NatBitIs(x: nat, k: nat)
    ensures NatBit(x, k) <==> (x / Weight(k)) % 2 == 1
  {
    if k > 0 {
      NatBitIs(x / 2, k - 1);
      HalfQuotient(x, Weight(k - 1));
    }
  }

  lemma {:induction false} HalfQuotient(x: nat, w: nat)
    requires w > 0
    ensures (x / 2) / w == x / (2 * w)
  {
    var q, r := (x / 2) / w, (x / 2) % w;
    assert x / 2 == q * w + r && q * (2 * w) == 2 * (q * w);
    TimesIsProduct(q, 2 * w);
    DivUnique(x, q, 2 * r + x % 2, 2 * w);
    QuotIsDivision(x, 2 * w);
  }

  /** Bit number 64 * j + k of a block is bit k of its j-th word. */
  lemma {:induction false} WordBit(s: seq<byte>, j: nat, k: nat)
    requires 8 * j + 8 <= |s| && k < 64
    ensures Bit(s, 64 * j + k) <==> (Word(s, j) / Weight(k)) % 2 == 1
  {
    hide NatBit;
    WordIsValue(s, j);
    ValueBit(s, 8 * j, 8, k);
    NatBitIs(Word(s, j), k);
    assert (64 * j + k) / 8 == 8 * j + k / 8 && (64 * j + k) % 8 == k % 8;
  }

  /** The word test is the comparison with (uint64_t) -1. */
  lemma {:induction false} WordFullIs(s: seq<byte>, j: nat)
    requires 8 * j + 8 <= |s|
    ensures WordFull(s, j) <==> Word(s, j) == 0xFFFF_FFFF_FFFF_FFFF
  {
    var o := 8 * j;
    assert WordFull(s, j) <==>
        s[o] == 0xFF && s[o + 1] == 0xFF && s[o + 2] == 0xFF && s[o + 3] == 0xFF
        && s[o + 4] == 0xFF && s[o + 5] == 0xFF && s[o + 6] == 0xFF && s[o + 7] == 0xFF;
  }

  /** Adding 1 << r to the i-th byte adds 1 << (8 * i + r) to the number. */
  lemma {:induction false} ValueAdd(s: seq<byte>, t: seq<byte>, off: nat, n: nat, i: nat, r: nat)
    requires off + n <= |s| == |t| && i < n && t[off + i] as nat == s[off + i] as nat + Weight(r)
    requires forall b :: 0 <= b < |s| && b != off + i ==> t[b] == s[b]
    ensures Value(t, off, n) == Value(s, off, n) + Weight(8 * i + r)
    decreases n
  {
    if i > 0 {
      ValueAdd(s, t, off + 1, n - 1, i - 1, r);
      WeightByte(8 * (i - 1) + r);
    } else {
      ValueSame(s, t, off + 1, n - 1);
    }
  }

  lemma {:induction false} ValueSame(s: seq<byte>, t: seq<byte>, off: nat, n: nat)
    requires off + n <= |s| == |t| && forall b :: off <= b < off + n ==> t[b] == s[b]
    ensures Value(t, off, n) == Value(s, off, n)
    decreases n
  {
    if n > 0 {
      ValueSame(s, t, off + 1, n - 1);
    }
  }

  lemma {:induction false} WeightByte(k: nat)
    ensures Weight(k + 8) == 0x100 * Weight(k)
  {
    assert Weight(k + 2) == 4 * Weight(k);
    assert Weight(k + 4) == 4 * Weight(k + 2);
    assert Weight(k + 6) == 4 * Weight(k + 4);
  }

  lemma {:induction false} WordAdd(s: seq<byte>, t: seq<byte>, j: nat, k: nat)
    requires 8 * j + 8 <= |s| == |t| && k < 64 && t[8 * j + k / 8] as nat == s[8 * j + k / 8] as nat + Weight(k % 8)
    requires forall b :: 0 <= b < |s| && b != 8 * j + k / 8 ==> t[b] == s[b]
    ensures Word(t, j) == Word(s, j) + Weight(k)
    ensures forall h: nat :: 8 * h + 8 <= |s| && h != j ==> Word(t, h) == Word(s, h)
  {
    hide Word, Value, Weight;
    WordIsValue(s, j);
    WordIsValue(t, j);
    ValueAdd(s, t, 8 * j, 8, k / 8, k % 8);
    forall h: nat | 8 * h + 8 <= |s| && h != j ensures Word(t, h) == Word(s, h) {
      WordIsValue(s, h);
      WordIsValue(t, h);
      ValueSame(s, t, 8 * h, 8);
    }
  }

  lemma {:induction false} SetBytes(s: seq<byte>, n: nat)
    requires n < 8 * |s|
    ensures Bit(s, n) ==> SetBit(s, n) == s && ClearBit(s, n)[n / 8] as nat == s[n / 8] as nat - Weight(n % 8)
    ensures !Bit(s, n) ==> ClearBit(s, n) == s && SetBit(s, n)[n / 8] as nat == s[n / 8] as nat + Weight(n % 8)
    ensures forall b :: 0 <= b < |s| && b != n / 8 ==> SetBit(s, n)[b] == ClearBit(s, n)[b] == s[b]
  {
  }

  /** Setting bit 64 * j + k adds 1 << k to word j, clearing it takes 1 << k from it, and all
      other words stay. */
  lemma {:induction false} SetBitWord(s: seq<byte>, j: nat, k: nat)
    requires 8 * j + 8 <= |s| && k < 64
    ensures Word(SetBit(s, 64 * j + k), j) == Word(s, j) + if Bit(s, 64 * j + k) then 0 else Weight(k)
    ensures Word(ClearBit(s, 64 * j + k), j) == Word(s, j) - if Bit(s, 64 * j + k) then Weight(k) else 0
    ensures forall h: nat :: 8 * h + 8 <= |s| && h != j ==>
              Word(SetBit(s, 64 * j + k), h) == Word(ClearBit(s, 64 * j + k), h) == Word(s, h)
  {
    var n := 64 * j + k;
    hide Word, Bit, Weight;
    SetBytes(s, n);
    assert n / 8 == 8 * j + k / 8 && n % 8 == k % 8;
    if Bit(s, n) {
      WordAdd(ClearBit(s, n), s, j, k);
    } else {
      WordAdd(s, SetBit(s, n), j, k);
    }
  }
}
