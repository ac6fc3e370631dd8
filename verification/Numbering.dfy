/** The allocator's state seen group by group: one bitmap and one free count per group,
    and the set of free object numbers they stand for. Blocks and inodes are both
    numbered this way. */
module Numbering {
  import opened Arith
  import opened Bytes
  import opened Bitmap

  /** The number of the object at index i of group g. */
  function Num(per: nat, g: nat, i: nat): (n: nat)
    ensures n >= 1
  {
    i + Times(g, per) + 1
  }

  function GroupOf(per: nat, n: nat): nat
    requires per > 0 && n >= 1
  {
    Quot(n - 1, per)
  }

  function IndexOf(per: nat, n: nat): nat
    requires per > 0 && n >= 1
  {
    Rem(n - 1, per)
  }

  /** (group, index) to number is a bijection onto 1..groups*per. */
  lemma {:induction false} NumInverts(per: nat, g: nat, i: nat)
    requires i < per
    ensures GroupOf(per, Num(per, g, i)) == g && IndexOf(per, Num(per, g, i)) == i
    ensures forall groups: nat :: g < groups ==> Num(per, g, i) <= Times(groups, per)
  {
    DivUnique(Num(per, g, i) - 1, g, i, per);
    forall groups: nat | g < groups ensures Num(per, g, i) <= Times(groups, per) {
      TimesMono(g + 1, groups, per);
    }
  }

  lemma {:induction false} NumOf(per: nat, n: nat, groups: nat)
    requires per > 0 && 1 <= n
    ensures IndexOf(per, n) < per && Num(per, GroupOf(per, n), IndexOf(per, n)) == n
    ensures n <= Times(groups, per) <==> GroupOf(per, n) < groups
  {
    DivSplit(n - 1, per);
    DivBound(n - 1, groups, per);
  }

  lemma {:induction false} NumOrder(per: nat, g: nat, i: nat, h: nat, j: nat)
    requires i < per && j < per
    requires g < h || (g == h && i <= j)
    ensures Num(per, g, i) <= Num(per, h, j)
  {
    if g < h {
      TimesMono(g + 1, h, per);
    }
  }

  /** The bitmaps say exactly which numbers are free; bits past the end of a group are
      padding and are set. */
  ghost predicate BitsOk(maps: seq<seq<byte>>, per: nat, free: set<nat>) {
    && per > 0
    && (forall g, i: nat :: 0 <= g < |maps| && i < 8 * |maps[g]| ==>
          (!Bit(maps[g], i) <==> i < per && Num(per, g, i) in free))
    && (forall g :: 0 <= g < |maps| ==> per <= 8 * |maps[g]|)
    && (forall n :: n in free ==> 1 <= n <= Times(|maps|, per))
  }

  ghost function Clear(map_: seq<byte>): nat {
    CountClear(map_, 8 * |map_|)
  }

  ghost predicate CountsOk(maps: seq<seq<byte>>, counts: seq<nat>) {
    && |counts| == |maps|
    && forall g :: 0 <= g < |maps| ==> counts[g] == Clear(maps[g])
  }

  /** One kind of object's bitmaps, group counts and free numbers. */
  datatype Alloc = Alloc(maps: seq<seq<byte>>, counts: seq<nat>, free: set<nat>)
  {
    ghost predicate Ok(per: nat) {
      BitsOk(maps, per, free) && CountsOk(maps, counts)
    }

    /** After number n, which is index i of group g, is handed out. */
    function Taken(g: nat, i: nat, n: nat): Alloc
      requires g < |maps| && i < 8 * |maps[g]| && g < |counts| && counts[g] > 0
    {
      Alloc(maps[g := SetBit(maps[g], i)], counts[g := counts[g] - 1], free - {n})
    }

    /** After number n, which is index i of group g, comes back. */
    function Given(g: nat, i: nat, n: nat): Alloc
      requires g < |maps| && i < 8 * |maps[g]| && g < |counts|
    {
      Alloc(maps[g := ClearBit(maps[g], i)], counts[g := counts[g] + 1], free + {n})
    }

    /** Number n has a bit in some group's bitmap. */
    ghost predicate Has(per: nat, n: nat) {
      && per > 0 && 1 <= n && |counts| == |maps|
      && GroupOf(per, n) < |maps| && IndexOf(per, n) < 8 * |maps[GroupOf(per, n)]|
    }

    ghost function Take(per: nat, n: nat): Alloc {
      if Has(per, n) && counts[GroupOf(per, n)] > 0 then Taken(GroupOf(per, n), IndexOf(per, n), n) else this
    }

    ghost function Give(per: nat, n: nat): Alloc {
      if Has(per, n) then Given(GroupOf(per, n), IndexOf(per, n), n) else this
    }
  }

  function Sum(counts: seq<nat>): nat {
    if counts == [] then 0 else Sum(counts[..|counts| - 1]) + counts[|counts| - 1]
  }

  lemma {:induction false} SumAtLeast(counts: seq<nat>, g: nat)
    requires g < |counts|
    ensures counts[g] <= Sum(counts)
  {
    if g < |counts| - 1 {
      SumAtLeast(counts[..|counts| - 1], g);
    }
  }

  lemma {:induction false} SumUpdate(counts: seq<nat>, g: nat, v: nat)
    requires g < |counts|
    ensures Sum(counts[g := v]) == Sum(counts) - counts[g] + v
  {
    var last := |counts| - 1;
    if g < last {
      assert counts[g := v][..last] == counts[..last][g := v];
      SumUpdate(counts[..last], g, v);
    } else {
      assert counts[g := v][..last] == counts[..last];
    }
  }

  lemma {:induction false} TakeBits(maps: seq<seq<byte>>, counts: seq<nat>, per: nat, free: set<nat>, g: nat, i: nat)
    requires BitsOk(maps, per, free) && CountsOk(maps, counts)
    requires g < |maps| && i < 8 * |maps[g]| && !Bit(maps[g], i)
    ensures i < per && Num(per, g, i) in free && counts[g] > 0
    ensures BitsOk(maps[g := SetBit(maps[g], i)], per, free - {Num(per, g, i)})
    ensures CountsOk(maps[g := SetBit(maps[g], i)], counts[g := counts[g] - 1])
  {
    var maps' := maps[g := SetBit(maps[g], i)];
    CountClearChange(maps[g], maps'[g], 8 * |maps[g]|, i);
    forall h, j: nat | 0 <= h < |maps'| && j < 8 * |maps'[h]|
      ensures !Bit(maps'[h], j) <==> j < per && Num(per, h, j) in free - {Num(per, g, i)}
    {
      if j < per {
        NumInverts(per, g, i);
        NumInverts(per, h, j);
      }
      assert Bit(maps[h], j) || !Bit(maps[h], j);
    }
  }

  /** A number that is not free has its bit set, in a group with room for one more. */
  lemma {:induction false} UsedBit(maps: seq<seq<byte>>, per: nat, free: set<nat>, g: nat, i: nat)
    requires BitsOk(maps, per, free) && g < |maps| && i < per && Num(per, g, i) !in free
    ensures i < 8 * |maps[g]| && Bit(maps[g], i)
    ensures forall j: nat :: per <= j < 8 * |maps[g]| ==> Bit(maps[g], j)
  {
    assert per <= 8 * |maps[g]|;
  }

  lemma {:induction false} GiveCount(m: seq<byte>, per: nat, i: nat)
    requires i < per <= 8 * |m| && Bit(m, i) && forall j: nat :: per <= j < 8 * |m| ==> Bit(m, j)
    ensures Clear(ClearBit(m, i)) == Clear(m) + 1 <= per
  {
    var m' := ClearBit(m, i);
    hide Bit;
    CountClearChange(m', m, 8 * |m|, i);
    CountClearPadding(m', per, 8 * |m|);
  }

  lemma {:induction false} GiveBits(maps: seq<seq<byte>>, per: nat, free: set<nat>, g: nat, i: nat)
    requires BitsOk(maps, per, free)
    requires g < |maps| && i < per && Num(per, g, i) !in free && i < 8 * |maps[g]|
    ensures BitsOk(maps[g := ClearBit(maps[g], i)], per, free + {Num(per, g, i)})
  {
    var n := Num(per, g, i);
    var map' := ClearBit(maps[g], i);
    hide Num, Bit;
    NumInverts(per, g, i);
    forall h, j: nat | 0 <= h < |maps| && j < 8 * |maps[h]|
      ensures !Bit(maps[g := map'][h], j) <==> j < per && Num(per, h, j) in free + {n}
    {
      if j < per {
        NumInverts(per, h, j);
      }
      assert Bit(maps[h], j) || !Bit(maps[h], j);
    }
  }

  /** Taking a free number: its bit is set, its group's count drops, the rest stands. */
  lemma {:induction false} TakeOk(a: Alloc, per: nat, g: nat, i: nat)
    requires a.Ok(per)
    requires g < |a.maps| && i < 8 * |a.maps[g]| && !Bit(a.maps[g], i)
    ensures i < per && Num(per, g, i) in a.free && a.counts[g] > 0
    ensures a.Taken(g, i, Num(per, g, i)).Ok(per)
  {
    TakeBits(a.maps, a.counts, per, a.free, g, i);
  }

  /** Giving a number back. */
  lemma {:induction false} GiveOk(a: Alloc, per: nat, g: nat, i: nat)
    requires a.Ok(per)
    requires g < |a.maps| && i < per && Num(per, g, i) !in a.free
    ensures i < 8 * |a.maps[g]| && Bit(a.maps[g], i) && a.counts[g] < per
    ensures a.Given(g, i, Num(per, g, i)).Ok(per)
  {
    UsedBit(a.maps, per, a.free, g, i);
    GiveBits(a.maps, per, a.free, g, i);
    GiveCount(a.maps[g], per, i);
    hide BitsOk, Bit;
  }

  /** Handing out a free number takes that number and no other. */
  lemma {:induction false} TakeFree(a: Alloc, per: nat, n: nat)
    requires a.Ok(per) && n in a.free
    ensures a.Has(per, n) && a.counts[GroupOf(per, n)] > 0 && !Bit(a.maps[GroupOf(per, n)], IndexOf(per, n))
    ensures a.Take(per, n).Ok(per) && a.Take(per, n).free == a.free - {n}
  {
    NumOf(per, n, |a.maps|);
    var g, i := GroupOf(per, n), IndexOf(per, n);
    assert per <= 8 * |a.maps[g]|;
    TakeOk(a, per, g, i);
  }

  /** Giving back a number in range that is not free. */
  lemma {:induction false} GiveUsed(a: Alloc, per: nat, n: nat)
    requires a.Ok(per) && n !in a.free && 1 <= n <= Times(|a.maps|, per)
    ensures a.Has(per, n) && Bit(a.maps[GroupOf(per, n)], IndexOf(per, n))
    ensures a.counts[GroupOf(per, n)] < per
    ensures a.Give(per, n).Ok(per) && a.Give(per, n).free == a.free + {n}
  {
    NumOf(per, n, |a.maps|);
    GiveOk(a, per, GroupOf(per, n), IndexOf(per, n));
  }

  /** The first clear bit, scanning groups in order, is the lowest free number. */
  lemma {:induction false} FirstFitIsLeast(maps: seq<seq<byte>>, per: nat, free: set<nat>, g: nat, i: nat)
    requires BitsOk(maps, per, free)
    requires g < |maps| && i < 8 * |maps[g]| && !Bit(maps[g], i)
    requires forall h :: 0 <= h < g ==> Clear(maps[h]) == 0
    requires forall j: nat :: j < i ==> Bit(maps[g], j)
    ensures forall n :: n in free ==> Num(per, g, i) <= n
  {
    forall n | n in free ensures Num(per, g, i) <= n {
      var h, j := GroupOf(per, n), IndexOf(per, n);
      NumOf(per, n, |maps|);
      assert !Bit(maps[h], j);
      NumOrder(per, g, i, h, j);
    }
  }

  /** There is nothing free exactly when every group's count is zero. */
  lemma {:induction false} NoneFree(maps: seq<seq<byte>>, counts: seq<nat>, per: nat, free: set<nat>)
    requires BitsOk(maps, per, free) && CountsOk(maps, counts)
    ensures free == {} <==> forall g :: 0 <= g < |counts| ==> counts[g] == 0
  {
    if g :| 0 <= g < |counts| && counts[g] != 0 {
      var i: nat :| i < 8 * |maps[g]| && !Bit(maps[g], i);
      assert Num(per, g, i) in free;
    }
    if free != {} {
      var n :| n in free;
      NumOf(per, n, |maps|);
      assert !Bit(maps[GroupOf(per, n)], IndexOf(per, n));
    }
  }

  ghost function UpTo(free: set<nat>, m: nat): set<nat> {
    set n | n in free && n <= m
  }

  ghost predicate BitsFrom(m: seq<byte>, per: nat, free: set<nat>, base: nat) {
    per <= 8 * |m| && forall j: nat :: j < per ==> (!Bit(m, j) <==> base + j + 1 in free)
  }

  lemma {:induction false} FreeInGroup(m: seq<byte>, per: nat, free: set<nat>, base: nat, i: nat)
    requires BitsFrom(m, per, free, base) && i <= per
    ensures |UpTo(free, base + i)| == |UpTo(free, base)| + CountClear(m, i)
  {
    if i > 0 {
      FreeInGroup(m, per, free, base, i - 1);
      var n := base + (i - 1) + 1;
      assert !Bit(m, i - 1) <==> n in free;
      var before := UpTo(free, base + (i - 1));
      assert UpTo(free, base + i) == if n in free then before + {n} else before;
    }
  }

  /** Bits past the end of a group are padding and do not count. */
  lemma {:induction false} ClearInGroup(maps: seq<seq<byte>>, per: nat, free: set<nat>, g: nat)
    requires BitsOk(maps, per, free) && g < |maps|
    ensures BitsFrom(maps[g], per, free, Times(g, per))
    ensures Clear(maps[g]) == CountClear(maps[g], per)
  {
    var m := maps[g];
    forall j: nat | j < per ensures !Bit(m, j) <==> Times(g, per) + j + 1 in free {
      assert Num(per, g, j) == Times(g, per) + j + 1;
    }
    CountClearPadding(m, per, 8 * |m|);
  }

  /** The count of one more group. */
  lemma {:induction false} FreeInNextGroup(m: seq<byte>, per: nat, free: set<nat>, g: nat, counts: seq<nat>)
    requires g < |counts| && BitsFrom(m, per, free, Times(g, per))
    requires |UpTo(free, Times(g, per))| == Sum(counts[..g]) && counts[g] == CountClear(m, per)
    ensures |UpTo(free, Times(g + 1, per))| == Sum(counts[..g + 1])
  {
    FreeInGroup(m, per, free, Times(g, per), per);
    assert counts[..g + 1][..g] == counts[..g];
  }

  lemma {:induction false} FreeInGroups(maps: seq<seq<byte>>, counts: seq<nat>, per: nat, free: set<nat>, g: nat)
    requires BitsOk(maps, per, free) && CountsOk(maps, counts) && g <= |maps|
    ensures |UpTo(free, Times(g, per))| == Sum(counts[..g])
  {
    if g > 0 {
      FreeInGroups(maps, counts, per, free, g - 1);
      ClearInGroup(maps, per, free, g - 1);
      FreeInNextGroup(maps[g - 1], per, free, g - 1, counts);
    } else {
      assert UpTo(free, 0) == {};
    }
  }

  /** The sum of the group counts is the number of free objects. */
  lemma {:induction false} SumIsCardinality(maps: seq<seq<byte>>, counts: seq<nat>, per: nat, free: set<nat>)
    requires BitsOk(maps, per, free) && CountsOk(maps, counts)
    ensures Sum(counts) == |free| <= Times(|maps|, per)
  {
    FreeInGroups(maps, counts, per, free, |maps|);
    assert free == UpTo(free, Times(|maps|, per));
    assert counts[..|maps|] == counts;
    CardinalityBound(free, Times(|maps|, per));
  }

  lemma {:induction false} CardinalityBound(s: set<nat>, m: nat)
    requires forall n :: n in s ==> 1 <= n <= m
    ensures |s| <= m
  {
    if m > 0 {
      CardinalityBound(s - {m}, m - 1);
    } else {
      assert s == {};
    }
  }

  // ---- the free numbers determine every bitmap byte and every count ------------------

  ghost predicate SameShape(a: Alloc, b: Alloc) {
    && |a.maps| == |b.maps|
    && forall g :: 0 <= g < |a.maps| ==> |a.maps[g]| == |b.maps[g]|
  }

  /** b is what becomes of a when `free` are the free numbers. */
  ghost predicate Moved(a: Alloc, b: Alloc, per: nat, free: set<nat>) {
    b.Ok(per) && SameShape(a, b) && b.free == free
  }

  /** However the allocator got there, which numbers are free settles every bit and count:
      a run of takes and gives that cancel out restores the bitmaps and counters. */
  lemma {:induction false} FreeDetermines(a: Alloc, b: Alloc, per: nat)
    requires a.Ok(per) && b.Ok(per) && SameShape(a, b) && a.free == b.free
    ensures a == b
  {
    forall g | 0 <= g < |a.maps| ensures a.maps[g] == b.maps[g] {
      forall i: nat | i < 8 * |a.maps[g]| ensures Bit(a.maps[g], i) == Bit(b.maps[g], i) {
        assert !Bit(a.maps[g], i) <==> i < per && Num(per, g, i) in a.free;
      }
      BytesDetermined(a.maps[g], b.maps[g]);
    }
    assert a.maps == b.maps;
    assert a.counts == b.counts;
  }

  lemma {:induction false} TakeMoves(a: Alloc, per: nat, n: nat)
    requires a.Ok(per) && n in a.free
    ensures Moved(a, a.Take(per, n), per, a.free - {n})
  {
    TakeFree(a, per, n);
  }

  lemma {:induction false} GiveMoves(a: Alloc, per: nat, n: nat)
    requires a.Ok(per) && n !in a.free && 1 <= n <= Times(|a.maps|, per)
    ensures Moved(a, a.Give(per, n), per, a.free + {n})
  {
    GiveUsed(a, per, n);
  }

  lemma {:induction false} MovedTwice(a: Alloc, b: Alloc, c: Alloc, per: nat, free: set<nat>, free': set<nat>)
    requires Moved(a, b, per, free) && Moved(b, c, per, free')
    ensures Moved(a, c, per, free')
  {
  }

  /** Giving back what was just taken restores every bitmap byte and every count. */
  lemma {:induction false} GiveUndoesTake(a: Alloc, per: nat, n: nat)
    requires a.Ok(per) && n in a.free
    ensures a.Take(per, n).Give(per, n) == a
  {
    var b := a.Take(per, n);
    hide *;
    TakeMoves(a, per, n);
    MovedFree(a, b, per, a.free - {n}, n);
    GiveMoves(b, per, n);
    MovedTwice(a, b, b.Give(per, n), per, a.free - {n}, a.free - {n} + {n});
    assert a.free - {n} + {n} == a.free;
    MovedBack(a, b.Give(per, n), per);
  }

  lemma {:induction false} MovedFree(a: Alloc, b: Alloc, per: nat, free: set<nat>, n: nat)
    requires a.Ok(per) && Moved(a, b, per, free) && n in a.free
    ensures b.Ok(per) && b.free == free && 1 <= n <= Times(|b.maps|, per)
  {
    hide Bit, CountsOk, Times;
  }

  lemma {:induction false} MovedBack(a: Alloc, b: Alloc, per: nat)
    requires a.Ok(per) && Moved(a, b, per, a.free)
    ensures b == a
  {
    hide BitsOk, CountsOk;
    FreeDetermines(a, b, per);
  }
}
