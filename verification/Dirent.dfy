/** Directory blocks: variable-length records packed end to end, edited in place. */
module Dirents {
  import opened Bytes

  type Name = seq<byte>

  /** What a record says: the name and the inode it stands for. */
  datatype Entry = Entry(ino: u32, name: Name)

  const HEADER: nat := 8

  predicate Aligned(x: int) {
    x % 4 == 0
  }

  lemma {:induction false} AlignedSums(x: int, y: int)
    requires Aligned(x) && Aligned(y)
    ensures Aligned(x + y) && Aligned(x - y)
  {
  }

  /** (x + 3) & ~3 */
  function AlignUp(x: nat): (r: nat)
    ensures Aligned(r) && x <= r < x + 4
  {
    (x + 3) / 4 * 4
  }

  function RecLen(s: seq<byte>, off: nat): u16
    requires off + HEADER <= |s|
  {
    U16At(s, off + 4)
  }

  function NameLen(s: seq<byte>, off: nat): byte
    requires off + HEADER <= |s|
  {
    s[off + 6]
  }

  /** A record that starts at `off` and ends by `end`: aligned, big enough for its name,
      in use. */
  predicate RecordOk(s: seq<byte>, off: nat, end: nat) {
    && off + HEADER <= end <= |s|
    && Aligned(RecLen(s, off)) && HEADER + NameLen(s, off) as int <= RecLen(s, off)
    && off + RecLen(s, off) <= end
    && U32At(s, off) != 0
  }

  function EntryAt(s: seq<byte>, off: nat): (e: Entry)
    requires off + HEADER <= |s| && off + HEADER + NameLen(s, off) as int <= |s|
    ensures e.ino == U32At(s, off) && |e.name| == NameLen(s, off)
  {
    Entry(U32At(s, off), Sub(s, off + HEADER, NameLen(s, off)))
  }

  /** Records tile the bytes from a to b exactly. */
  predicate Tiled(s: seq<byte>, a: nat, b: nat)
    decreases b - a
  {
    a == b || (RecordOk(s, a, b) && Tiled(s, a + RecLen(s, a), b))
  }

  /** The entries of a tiled stretch, in order. */
  function Entries(s: seq<byte>, a: nat, b: nat): (es: seq<Entry>)
    requires Tiled(s, a, b)
    ensures a < b <==> es != []
    decreases b - a
  {
    if a == b then [] else [EntryAt(s, a)] + Entries(s, a + RecLen(s, a), b)
  }

  /** In bytes: the inode's number in bytes 0 to 3 of a record, its length in 4 and 5, the name's
      length in 6, the name from 8 on. */
  lemma {:induction false} FirstEntry(s: seq<byte>, a: nat, b: nat)
    requires Tiled(s, a, b) && a < b
    ensures a + 8 <= b <= |s| && a + 8 + s[a + 6] as nat <= b
    ensures var len := s[a + 4] as nat + 0x100 * s[a + 5] as nat;
            && Tiled(s, a + len, b)
            && Entries(s, a, b) == [Entry(U32At(s, a), s[a + 8..a + 8 + s[a + 6] as nat])] + Entries(s, a + len, b)
  {
    assert Sub(s, a + HEADER, NameLen(s, a)) == s[a + 8..a + 8 + s[a + 6] as nat];
  }

  lemma {:induction false} TiledOrder(s: seq<byte>, a: nat, b: nat)
    requires Tiled(s, a, b)
    ensures a <= b && Aligned(b - a) && (a < b ==> b <= |s|)
    decreases b - a
  {
    if a != b {
      TiledOrder(s, a + RecLen(s, a), b);
    }
  }

  lemma {:induction false} Assoc(a: seq<Entry>, b: seq<Entry>, c: seq<Entry>)
    ensures (a + b) + c == a + (b + c)
  {
  }

  lemma {:induction false} RecordExtends(s: seq<byte>, a: nat, b: nat, c: nat)
    requires RecordOk(s, a, b) && b <= c <= |s|
    ensures RecordOk(s, a, c)
  {
  }

  /** Stretches that meet concatenate. */
  lemma {:induction false} TiledConcat(s: seq<byte>, a: nat, b: nat, c: nat)
    requires Tiled(s, a, b) && Tiled(s, b, c)
    ensures Tiled(s, a, c) && Entries(s, a, c) == Entries(s, a, b) + Entries(s, b, c)
    decreases b - a
  {
    if a != b {
      assert RecordOk(s, a, b) && RecLen(s, a) >= HEADER && a + RecLen(s, a) <= b <= |s|;
      hide RecordOk, EntryAt, RecLen, NameLen;
      var next := a + RecLen(s, a);
      TiledOrder(s, b, c);
      TiledOrder(s, a, b);
      TiledConcat(s, next, b, c);
      RecordExtends(s, a, b, c);
      Assoc([EntryAt(s, a)], Entries(s, next, b), Entries(s, b, c));
    }
  }

  /** A stretch depends only on its own bytes. */
  lemma {:induction false} TiledAgree(s: seq<byte>, t: seq<byte>, a: nat, b: nat)
    requires Tiled(s, a, b) && |t| == |s|
    requires forall i :: a <= i < b && i < |s| ==> s[i] == t[i]
    ensures Tiled(t, a, b) && Entries(t, a, b) == Entries(s, a, b)
    decreases b - a
  {
    if a != b {
      assert EntryAt(t, a) == EntryAt(s, a);
      TiledAgree(s, t, a + RecLen(s, a), b);
    }
  }

  /** Nor on where those bytes are. */
  lemma {:induction false} TiledWithin(s: seq<byte>, t: seq<byte>, at: nat, a: nat, b: nat)
    requires Tiled(s, a, b) && at + |s| <= |t|
    requires forall i :: a <= i < b && i < |s| ==> t[at + i] == s[i]
    ensures Tiled(t, at + a, at + b) && Entries(t, at + a, at + b) == Entries(s, a, b)
    decreases b - a
  {
    hide RecordOk, EntryAt, RecLen;
    if a != b {
      RecordWithin(s, t, at, a, b);
      TiledWithin(s, t, at, a + RecLen(s, a), b);
    }
  }

  lemma {:induction false} RecordWithin(s: seq<byte>, t: seq<byte>, at: nat, a: nat, b: nat)
    requires RecordOk(s, a, b) && at + |s| <= |t|
    requires forall i :: a <= i < b && i < |s| ==> t[at + i] == s[i]
    ensures 0 < HEADER <= RecLen(s, a) && a + RecLen(s, a) <= b <= |s| && a + HEADER + NameLen(s, a) as int <= |s|
    ensures RecordOk(t, at + a, at + b) && RecLen(t, at + a) == RecLen(s, a) && EntryAt(t, at + a) == EntryAt(s, a)
  {
    assert t[at + a + 4] == s[a + 4] && t[at + a + 5] == s[a + 5] && t[at + a + 6] == s[a + 6];
    assert t[at + a] == s[a] && t[at + a + 1] == s[a + 1] && t[at + a + 2] == s[a + 2] && t[at + a + 3] == s[a + 3];
    var n := NameLen(s, a);
    var u, v := Sub(t, at + a + HEADER, n), Sub(s, a + HEADER, n);
    forall i | 0 <= i < n ensures u[i] == v[i] {
      assert t[at + (a + HEADER + i)] == s[a + HEADER + i];
    }
  }

  /** The bytes at `off` are a record with these fields. */
  predicate RecordIs(s: seq<byte>, off: nat, len: nat, e: Entry) {
    && off + HEADER + |e.name| <= |s| && |e.name| < 0x100
    && RecLen(s, off) == len && NameLen(s, off) == |e.name|
    && U32At(s, off) == e.ino && Sub(s, off + HEADER, |e.name|) == e.name
  }

  lemma {:induction false} OneRecord(s: seq<byte>, off: nat, len: nat, e: Entry)
    requires RecordIs(s, off, len, e) && e.ino != 0
    requires Aligned(len) && HEADER + |e.name| <= len && off + len <= |s|
    ensures Tiled(s, off, off + len) && Entries(s, off, off + len) == [e]
  {
    assert Tiled(s, off + len, off + len);
    assert Entries(s, off + len, off + len) == [];
  }

  // ---- what an edit does to the entries ----------------------------------------------

  predicate SameOutside(s: seq<byte>, t: seq<byte>, lo: nat, hi: nat) {
    |t| == |s| && forall i :: 0 <= i < |s| && !(lo <= i < hi) ==> t[i] == s[i]
  }

  /** Only the stretch from lo to hi changed, and it is tiled again. */
  lemma {:induction false} Patch(s: seq<byte>, t: seq<byte>, lo: nat, hi: nat)
    requires SameOutside(s, t, lo, hi)
    requires Tiled(s, 0, lo) && Tiled(s, hi, |s|) && Tiled(t, lo, hi)
    ensures Tiled(t, 0, |t|) && Entries(t, 0, |t|) == Entries(s, 0, lo) + Entries(t, lo, hi) + Entries(s, hi, |s|)
  {
    TiledAgree(s, t, 0, lo);
    TiledAgree(s, t, hi, |s|);
    TiledConcat(t, 0, lo, hi);
    TiledConcat(t, 0, hi, |t|);
  }

  /** A record inside a tiled stretch is well formed, and the rest is tiled. */
  lemma {:induction false} RecordBounds(s: seq<byte>, off: nat, end: nat)
    requires Tiled(s, off, end) && off < end
    ensures RecordOk(s, off, end) && Aligned(RecLen(s, off)) && HEADER + NameLen(s, off) as int <= RecLen(s, off)
    ensures off < off + RecLen(s, off) <= end <= |s| && Tiled(s, off + RecLen(s, off), end)
  {
  }

  /** The record at `off` of a tiled stretch, and the stretch after it. */
  lemma {:induction false} FirstRecord(s: seq<byte>, off: nat, end: nat)
    requires Tiled(s, off, end) && off < end
    ensures RecordOk(s, off, end) && Aligned(RecLen(s, off)) && HEADER + NameLen(s, off) as int <= RecLen(s, off)
    ensures off + RecLen(s, off) <= end <= |s| && Tiled(s, off, off + RecLen(s, off)) && Tiled(s, off + RecLen(s, off), end)
    ensures Entries(s, off, off + RecLen(s, off)) == [EntryAt(s, off)]
    ensures Entries(s, off, end) == [EntryAt(s, off)] + Entries(s, off + RecLen(s, off), end)
  {
    OneRecord(s, off, RecLen(s, off), EntryAt(s, off));
  }

  /** A block as the entries before a record, the record's entry, and the entries after. */
  lemma {:induction false} Decompose(s: seq<byte>, off: nat)
    requires Tiled(s, 0, off) && Tiled(s, off, |s|) && off < |s|
    ensures RecordOk(s, off, |s|) && Tiled(s, 0, |s|) && Tiled(s, off + RecLen(s, off), |s|)
    ensures Entries(s, 0, |s|) == Entries(s, 0, off) + [EntryAt(s, off)] + Entries(s, off + RecLen(s, off), |s|)
  {
    FirstRecord(s, off, |s|);
    TiledConcat(s, 0, off, |s|);
    hide *;
    Assoc(Entries(s, 0, off), [EntryAt(s, off)], Entries(s, off + RecLen(s, off), |s|));
  }

  lemma {:induction false} OutsideLength(s: seq<byte>, t: seq<byte>, lo: nat, hi: nat)
    requires SameOutside(s, t, lo, hi)
    ensures |t| == |s|
  {
  }

  lemma {:induction false} RecordAligned(s: seq<byte>, off: nat, end: nat)
    requires RecordOk(s, off, end)
    ensures Aligned(RecLen(s, off)) && off + RecLen(s, off) <= end <= |s| && U32At(s, off) != 0
  {
  }

  /** A record with slack is cut in two: the entry it held keeps the first `keep` bytes,
      the new entry gets the rest. */
  lemma {:induction false} SplitRecord(s: seq<byte>, t: seq<byte>, off: nat, keep: nat, e: Entry)
    requires off + HEADER <= |s| && SameOutside(s, t, off, off + RecLen(s, off))
    requires Tiled(s, 0, off) && RecordOk(s, off, |s|) && Tiled(s, off + RecLen(s, off), |s|)
    requires Aligned(keep) && HEADER + NameLen(s, off) as int <= keep
    requires keep + HEADER + |e.name| <= RecLen(s, off) && e.ino != 0
    requires Sub(t, off, HEADER + NameLen(s, off)) == Put16(Sub(s, off, HEADER + NameLen(s, off)), 4, keep)
    requires RecordIs(t, off + keep, RecLen(s, off) - keep, e)
    ensures Tiled(t, 0, |t|)
    ensures Entries(t, 0, |t|) == Entries(s, 0, off) + ([EntryAt(s, off)] + [e]) + Entries(s, off + RecLen(s, off), |s|)
  {
    hide *;
    OutsideLength(s, t, off, off + RecLen(s, off));
    RecordAligned(s, off, |s|);
    Relength(s, t, off, off, keep);
    OneRecord(t, off, keep, EntryAt(s, off));
    AlignedSums(RecLen(s, off), keep);
    OneRecord(t, off + keep, RecLen(s, off) - keep, e);
    TiledConcat(t, off, off + keep, off + RecLen(s, off));
    Patch(s, t, off, off + RecLen(s, off));
  }

  /** A record copied from `from` to `to` with another length is the same entry. */
  lemma {:induction false} Relength(s: seq<byte>, t: seq<byte>, from: nat, to: nat, len: u16)
    requires from + HEADER <= |s| && from + HEADER + NameLen(s, from) as int <= |s|
    requires to + HEADER + NameLen(s, from) as int <= |t|
    requires Sub(t, to, HEADER + NameLen(s, from)) == Put16(Sub(s, from, HEADER + NameLen(s, from)), 4, len)
    ensures RecordIs(t, to, len, EntryAt(s, from))
  {
    var n := HEADER + NameLen(s, from) as int;
    var a, b := Sub(s, from, n), Sub(t, to, n);
    assert forall i :: 0 <= i < n ==> a[i] == s[from + i] && b[i] == t[to + i];
    assert U16At(b, 4) == U16At(t, to + 4);
    assert U32At(b, 0) == U32At(a, 0);
    assert b[6] == a[6];
    var e := EntryAt(s, from);
    forall i | 0 <= i < |e.name| ensures Sub(t, to + HEADER, |e.name|)[i] == e.name[i] {
      assert b[HEADER + i] == a[HEADER + i];
    }
  }

  /** The last record is absorbed by the one before it. */
  lemma {:induction false} AbsorbLast(s: seq<byte>, t: seq<byte>, prev: nat)
    requires |s| < 0x1_0000 && Tiled(s, 0, prev) && prev + HEADER <= |s|
    requires HEADER + NameLen(s, prev) as int <= |s| - prev && Aligned(|s| - prev) && U32At(s, prev) != 0
    requires SameOutside(s, t, prev, |s|)
    requires Sub(t, prev, HEADER + NameLen(s, prev)) == Put16(Sub(s, prev, HEADER + NameLen(s, prev)), 4, |s| - prev)
    ensures Tiled(t, 0, |t|)
    ensures Entries(t, 0, |t|) == Entries(s, 0, prev) + [EntryAt(s, prev)]
  {
    assert |t| == |s|;
    assert Tiled(s, |s|, |s|) && Entries(s, |s|, |s|) == [];
    hide *;
    Relength(s, t, prev, prev, |s| - prev);
    OneRecord(t, prev, |s| - prev, EntryAt(s, prev));
    Patch(s, t, prev, |s|);
  }

  /** The record after `off` is moved down over it and takes over its length. */
  lemma {:induction false} SlideNext(s: seq<byte>, t: seq<byte>, off: nat, next: nat, end: nat)
    requires |s| < 0x1_0000 && Tiled(s, 0, off) && off < next < |s| && Aligned(next - off)
    requires Tiled(s, next, |s|) && next + HEADER <= |s| && end == next + RecLen(s, next)
    requires next + HEADER + NameLen(s, next) as int <= |s| && off + HEADER <= next
    requires SameOutside(s, t, off, end) && end <= |s|
    requires Sub(t, off, HEADER + NameLen(s, next)) == Put16(Sub(s, next, HEADER + NameLen(s, next)), 4, end - off)
    ensures Tiled(t, 0, |t|)
    ensures Entries(t, 0, |t|) == Entries(s, 0, off) + Entries(s, next, |s|)
  {
    assert |t| == |s|;
    hide *;
    FirstRecord(s, next, |s|);
    AlignedSums(next - off, RecLen(s, next));
    Relength(s, t, next, off, end - off);
    OneRecord(t, off, end - off, EntryAt(s, next));
    Patch(s, t, off, end);
    Assoc(Entries(s, 0, off), [EntryAt(s, next)], Entries(s, end, |s|));
  }
}
