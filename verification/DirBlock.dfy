/** The in-place edits of a directory block: split a record, grow or slide one, format a
    fresh block, and look a name up. */
module DirBlocks {
  import opened Bytes
  import opened Dirents

  method PutU16(buf: array<byte>, off: nat, v: u16)
    requires off + 2 <= buf.Length
    modifies buf
    ensures buf[..] == Put16(old(buf[..]), off, v)
  {
    var d := Bytes16(v);
    buf[off], buf[off + 1] := d[0], d[1];
  }

  method PutU32(buf: array<byte>, off: nat, v: u32)
    requires off + 4 <= buf.Length
    modifies buf
    ensures buf[..] == Put32(old(buf[..]), off, v)
  {
    var d := Bytes32(v);
    buf[off], buf[off + 1], buf[off + 2], buf[off + 3] := d[0], d[1], d[2], d[3];
  }

  method PutBytes(buf: array<byte>, off: nat, d: seq<byte>)
    requires off + |d| <= buf.Length
    modifies buf
    ensures buf[..] == Splice(old(buf[..]), off, d)
  {
    forall i | off <= i < off + |d| {
      buf[i] := d[i - off];
    }
  }

  /** The bytes after a record's header and name are filled in. */
  function Written(s: seq<byte>, off: nat, len: u16, e: Entry): (r: seq<byte>)
    requires off + HEADER + |e.name| <= |s| && |e.name| < 0x100
    ensures |r| == |s|
  {
    var s1 := Put16(s, off + 4, len)[off + 6 := |e.name|][off + 7 := 0];
    Splice(Put32(s1, off, e.ino), off + HEADER, e.name)
  }

  lemma {:induction false} WrittenIs(s: seq<byte>, off: nat, len: u16, e: Entry)
    requires off + HEADER + |e.name| <= |s| && |e.name| < 0x100
    ensures RecordIs(Written(s, off, len, e), off, len, e)
    ensures SameOutside(s, Written(s, off, len, e), off, off + HEADER + |e.name|)
  {
    var s0 := Put16(s, off + 4, len);
    var s1 := s0[off + 6 := |e.name|][off + 7 := 0];
    var s2 := Put32(s1, off, e.ino);
    var r := Splice(s2, off + HEADER, e.name);
    assert U16At(r, off + 4) == U16At(s0, off + 4);
    assert U32At(r, off) == U32At(s2, off);
    assert Sub(r, off + HEADER, |e.name|) == e.name;
  }

  method WriteRecord(buf: array<byte>, off: nat, len: u16, e: Entry)
    requires off + HEADER + |e.name| <= buf.Length && |e.name| < 0x100
    modifies buf
    ensures buf[..] == Written(old(buf[..]), off, len, e)
  {
    PutU16(buf, off + 4, len);
    buf[off + 6], buf[off + 7] := |e.name|, 0;
    PutU32(buf, off, e.ino);
    PutBytes(buf, off + HEADER, e.name);
  }

  // ---- insertion ---------------------------------------------------------------------

  /** Bytes a record keeps for itself: the code reserves `reserved` bytes of header, the
      size of another structure than the record's own, which only has to be no smaller. */
  function Kept(s: seq<byte>, off: nat, reserved: nat): nat
    requires off + HEADER <= |s|
  {
    AlignUp(NameLen(s, off) + reserved)
  }

  /** The record at `off` can give up `need` bytes. */
  predicate Slack(s: seq<byte>, off: nat, need: nat, reserved: nat)
    requires off + HEADER <= |s|
  {
    Kept(s, off, reserved) < RecLen(s, off) && RecLen(s, off) - Kept(s, off, reserved) >= need
  }

  /** Some record from `a` on can give up `need` bytes. */
  predicate HasRoom(s: seq<byte>, a: nat, need: nat, reserved: nat)
    requires Tiled(s, a, |s|)
    decreases |s| - a
  {
    a < |s| && (Slack(s, a, need, reserved) || HasRoom(s, a + RecLen(s, a), need, reserved))
  }

  /** e was put after the k-th entry. */
  ghost predicate InsertedAt(es: seq<Entry>, es': seq<Entry>, k: nat, e: Entry) {
    1 <= k <= |es| && es' == es[..k] + [e] + es[k..]
  }

  /** A whole block holds what it held, with e put after some entry. */
  ghost predicate AddedTo(s: seq<byte>, t: seq<byte>, e: Entry) {
    && |t| == |s| && Tiled(s, 0, |s|) && Tiled(t, 0, |t|)
    && exists k :: InsertedAt(Entries(s, 0, |s|), Entries(t, 0, |t|), k, e)
  }

  /** The bytes after the record at `off` is cut after `keep` bytes and e put in the rest. */
  function Split(s: seq<byte>, off: nat, keep: u16, e: Entry): (t: seq<byte>)
    requires off + HEADER <= |s| && off + RecLen(s, off) <= |s|
    requires keep + HEADER + |e.name| <= RecLen(s, off) && |e.name| < 0x100
    ensures |t| == |s|
  {
    Put16(Written(s, off + keep, RecLen(s, off) - keep, e), off + 4, keep)
  }

  /** What the split leaves: everything before, the shortened record, the new one. */
  lemma {:induction false} SplitTiles(s: seq<byte>, off: nat, keep: u16, e: Entry)
    requires off + HEADER <= |s| && off + RecLen(s, off) <= |s|
    requires keep + HEADER + |e.name| <= RecLen(s, off) && e.ino != 0 && |e.name| < 0x100
    requires Tiled(s, 0, off) && RecordOk(s, off, |s|) && Tiled(s, off + RecLen(s, off), |s|)
    requires Aligned(keep) && HEADER + NameLen(s, off) as int <= keep
    ensures var t := Split(s, off, keep, e);
            && Tiled(t, 0, |t|)
            && Entries(t, 0, |t|) == Entries(s, 0, off) + ([EntryAt(s, off)] + [e]) + Entries(s, off + RecLen(s, off), |s|)
  {
    hide Tiled, Entries, EntryAt, Written, SameOutside, RecordIs, Put16, Sub, RecLen, RecordOk;
    var w := Written(s, off + keep, RecLen(s, off) - keep, e);
    var t := Put16(w, off + 4, keep);
    WrittenIs(s, off + keep, RecLen(s, off) - keep, e);
    SplitFields(s, w, t, off, keep, e);
    SplitRecord(s, t, off, keep, e);
  }

  lemma {:induction false} SplitAdds(s: seq<byte>, off: nat, keep: u16, e: Entry)
    requires off + HEADER <= |s| && off + RecLen(s, off) <= |s|
    requires keep + HEADER + |e.name| <= RecLen(s, off) && e.ino != 0 && |e.name| < 0x100
    requires Tiled(s, 0, off) && Tiled(s, off, |s|) && off < |s|
    requires Aligned(keep) && HEADER + NameLen(s, off) as int <= keep
    ensures AddedTo(s, Split(s, off, keep, e), e)
  {
    var t := Split(s, off, keep, e);
    hide Tiled, Entries, EntryAt, Split, RecLen, RecordOk, InsertedAt, Aligned, NameLen;
    Decompose(s, off);
    SplitTiles(s, off, keep, e);
    var before, x, after := Entries(s, 0, off), [EntryAt(s, off)], Entries(s, off + RecLen(s, off), |s|);
    InsertSplits(before, x, after, e);
    assert InsertedAt(Entries(s, 0, |s|), Entries(t, 0, |t|), |before| + 1, e);
  }

  lemma {:induction false} InsertSplits(before: seq<Entry>, x: seq<Entry>, after: seq<Entry>, e: Entry)
    requires |x| == 1
    ensures InsertedAt(before + x + after, before + (x + [e]) + after, |before| + 1, e)
  {
    var es := before + x + after;
    assert es[..|before| + 1] == before + x && es[|before| + 1..] == after;
  }

  lemma {:induction false} SplitFields(s: seq<byte>, w: seq<byte>, t: seq<byte>, off: nat, keep: u16, e: Entry)
    requires off + HEADER <= |s| && HEADER + NameLen(s, off) as int <= keep && |e.name| < 0x100
    requires keep + HEADER + |e.name| <= RecLen(s, off) && off + RecLen(s, off) <= |s|
    requires SameOutside(s, w, off + keep, off + keep + HEADER + |e.name|) && t == Put16(w, off + 4, keep)
    requires RecordIs(w, off + keep, RecLen(s, off) - keep, e)
    ensures SameOutside(s, t, off, off + RecLen(s, off))
    ensures Sub(t, off, HEADER + NameLen(s, off)) == Put16(Sub(s, off, HEADER + NameLen(s, off)), 4, keep)
    ensures RecordIs(t, off + keep, RecLen(s, off) - keep, e)
  {
    var n := HEADER + NameLen(s, off) as int;
    var a := Put16(Sub(s, off, n), 4, keep);
    forall i | 0 <= i < n ensures Sub(t, off, n)[i] == a[i] {
      if !(4 <= i < 6) {
        assert t[off + i] == w[off + i] == s[off + i];
      }
    }
    assert Sub(t, off + keep + HEADER, |e.name|) == Sub(w, off + keep + HEADER, |e.name|);
  }

  lemma {:induction false} RoomAt(s: seq<byte>, off: nat, need: nat, reserved: nat)
    requires Tiled(s, off, |s|) && off < |s| && off + HEADER <= |s| && Tiled(s, off + RecLen(s, off), |s|)
    ensures HasRoom(s, off, need, reserved) == (Slack(s, off, need, reserved) || HasRoom(s, off + RecLen(s, off), need, reserved))
  {
    hide Slack;
  }

  lemma {:induction false} NoRoom(s: seq<byte>, need: nat, reserved: nat)
    ensures Tiled(s, |s|, |s|) && !HasRoom(s, |s|, need, reserved)
  {
  }

  /** In bytes: a record begins at `off`, and behind its name (with `reserved` bytes of header)
      its length leaves room for a record with a name of n bytes. */
  ghost predicate TakesAt(s: seq<byte>, off: nat, n: nat, reserved: nat) {
    && off + 8 <= |s| && Tiled(s, 0, off) && Tiled(s, off, |s|)
    && var len := s[off + 4] as nat + 0x100 * s[off + 5] as nat;
       var own := AlignUp(s[off + 6] as nat + reserved);
       own < len && own + AlignUp(n + 8) <= len
  }

  /** Records do not overlap. */
  lemma {:induction false} NextRecord(s: seq<byte>, x: nat, a: nat, off: nat)
    requires Tiled(s, x, a) && Tiled(s, x, off) && x <= a < off
    ensures a + HEADER <= |s| && a + RecLen(s, a) <= off
    decreases off - x
  {
    if x < a {
      NextRecord(s, x + RecLen(s, x), a, off);
    }
  }

  lemma {:induction false} TakesHere(s: seq<byte>, off: nat, n: nat, reserved: nat)
    requires off + HEADER <= |s| && Tiled(s, 0, off) && Tiled(s, off, |s|)
    ensures TakesAt(s, off, n, reserved) == Slack(s, off, AlignUp(n + HEADER), reserved)
  {
    hide Tiled;
  }

  lemma {:induction false} TakesFrom(s: seq<byte>, a: nat, n: nat, reserved: nat)
    requires Tiled(s, 0, a) && Tiled(s, a, |s|) && a <= |s|
    ensures HasRoom(s, a, AlignUp(n + HEADER), reserved) <==> exists off :: a <= off && TakesAt(s, off, n, reserved)
    decreases |s| - a
  {
    hide Tiled, Entries, EntryAt, Slack;
    if a < |s| {
      RecordHere(s, a);
      var next := a + RecLen(s, a);
      RoomAt(s, a, AlignUp(n + HEADER), reserved);
      TakesHere(s, a, n, reserved);
      TakesFrom(s, next, n, reserved);
      forall off | a < off && TakesAt(s, off, n, reserved) ensures next <= off {
        NextRecord(s, 0, a, off);
      }
    } else {
      NoRoom(s, AlignUp(n + HEADER), reserved);
    }
  }

  lemma {:induction false} NotTaken(s: seq<byte>, a: nat, n: nat, reserved: nat)
    requires Tiled(s, 0, a) && Tiled(s, a, |s|) && a < |s| && a + HEADER <= |s|
    ensures forall off :: a < off < a + RecLen(s, a) ==> !TakesAt(s, off, n, reserved)
  {
    forall off | a < off && TakesAt(s, off, n, reserved) ensures a + RecLen(s, a) <= off {
      NextRecord(s, 0, a, off);
    }
  }

  /** The record at `off`, the first that takes e, is split behind its own bytes. */
  ghost predicate FirstSplit(s: seq<byte>, t: seq<byte>, off: nat, e: Entry, reserved: nat) {
    && TakesAt(s, off, |e.name|, reserved) && (forall o: nat :: o < off ==> !TakesAt(s, o, |e.name|, reserved))
    && var own := AlignUp(s[off + 6] as nat + reserved);
       && off + RecLen(s, off) <= |s| && own + HEADER + |e.name| <= RecLen(s, off) && |e.name| < 0x100
       && t == Split(s, off, own, e)
  }

  lemma {:induction false} RoomExact(s: seq<byte>, n: nat, reserved: nat)
    requires Tiled(s, 0, |s|)
    ensures HasRoom(s, 0, AlignUp(n + HEADER), reserved) <==> exists off :: TakesAt(s, off, n, reserved)
  {
    hide HasRoom, TakesAt, AlignUp;
    StartTiled(s);
    TakesFrom(s, 0, n, reserved);
  }

  lemma {:induction false} SlackMeans(s: seq<byte>, off: nat, need: nat, reserved: nat)
    requires off + HEADER <= |s|
    ensures Slack(s, off, need, reserved) <==>
              Kept(s, off, reserved) < RecLen(s, off) && RecLen(s, off) - Kept(s, off, reserved) >= need
  {
  }

  lemma {:induction false} SplitFirst(s: seq<byte>, t: seq<byte>, off: nat, keep: u16, e: Entry, reserved: nat)
    requires off + HEADER <= |s| && off + RecLen(s, off) <= |s| && keep == Kept(s, off, reserved)
    requires keep + HEADER + |e.name| <= RecLen(s, off) && |e.name| < 0x100
    requires TakesAt(s, off, |e.name|, reserved) && (forall o: nat :: o < off ==> !TakesAt(s, o, |e.name|, reserved))
    requires t == Split(s, off, keep, e)
    ensures FirstSplit(s, t, off, e, reserved)
  {
    hide TakesAt, Split;
  }

  /** What the pass knows of the record it is at. */
  lemma {:induction false} RecordHere(s: seq<byte>, off: nat)
    requires Tiled(s, 0, off) && Tiled(s, off, |s|) && off < |s|
    ensures off + HEADER <= |s| && off + HEADER + NameLen(s, off) as int <= |s| && off < off + RecLen(s, off) <= |s|
    ensures HEADER + NameLen(s, off) as int <= RecLen(s, off)
    ensures Tiled(s, off, off + RecLen(s, off)) && Tiled(s, 0, off + RecLen(s, off)) && Tiled(s, off + RecLen(s, off), |s|)
    ensures Entries(s, 0, off + RecLen(s, off)) == Entries(s, 0, off) + [EntryAt(s, off)]
  {
    FirstRecord(s, off, |s|);
    TiledConcat(s, 0, off, off + RecLen(s, off));
  }

  /** ext2_dir_add_inode's pass over one block: the first record with slack is split. */
  method AddToBlock(buf: array<byte>, e: Entry, reserved: nat) returns (added: bool)
    requires 0 < buf.Length < 0x1_0000 && Tiled(buf[..], 0, buf.Length)
    requires 1 <= |e.name| < 0x100 && e.ino != 0 && reserved >= HEADER
    modifies buf
    ensures added == HasRoom(old(buf[..]), 0, AlignUp(|e.name| + HEADER), reserved)
    ensures added <==> exists off :: TakesAt(old(buf[..]), off, |e.name|, reserved)
    ensures added ==> exists off :: FirstSplit(old(buf[..]), buf[..], off, e, reserved)
    ensures !added ==> buf[..] == old(buf[..])
    ensures added ==> AddedTo(old(buf[..]), buf[..], e)
  {
    hide AddedTo, Written, Put16, Entries, EntryAt, Tiled, HasRoom, TakesAt, Slack, FirstSplit;
    ghost var s := buf[..];
    RoomExact(s, |e.name|, reserved);
    var need := AlignUp(|e.name| + HEADER);
    var off := 0;
    StartTiled(s);
    while off < buf.Length
      invariant buf[..] == s && off <= buf.Length
      invariant Tiled(s, 0, off) && Tiled(s, off, |s|)
      invariant HasRoom(s, 0, need, reserved) == HasRoom(s, off, need, reserved)
      invariant forall o: nat :: o < off ==> !TakesAt(s, o, |e.name|, reserved)
      decreases buf.Length - off
    {
      RecordHere(s, off);
      RoomAt(s, off, need, reserved);
      TakesHere(s, off, |e.name|, reserved);
      NotTaken(s, off, |e.name|, reserved);
      var len := RecLen(buf[..], off);
      var keep := Kept(buf[..], off, reserved);
      if keep < len && len - keep >= need {
        SplitAdds(s, off, keep, e);
        SlackMeans(s, off, need, reserved);
        WriteRecord(buf, off + keep, len - keep, e);
        PutU16(buf, off + 4, keep);
        SplitFirst(s, buf[..], off, keep, e, reserved);
        return true;
      }
      SlackMeans(s, off, need, reserved);
      off := off + len;
    }
    NoRoom(s, need, reserved);
    added := false;
  }

  lemma {:induction false} StartTiled(s: seq<byte>)
    ensures Tiled(s, 0, 0) && Entries(s, 0, 0) == []
  {
  }

  // ---- removal -----------------------------------------------------------------------

  /** The k-th entry, the first of this name, was taken out. */
  ghost predicate RemovedAt(es: seq<Entry>, es': seq<Entry>, k: nat, name: Name) {
    && k < |es| && |es| > 1 && es[k].name == name
    && Unnamed(es[..k], name) && es' == es[..k] + es[k + 1..]
  }

  /** No entry has this name. */
  ghost predicate Unnamed(es: seq<Entry>, name: Name) {
    forall j :: 0 <= j < |es| ==> es[j].name != name
  }

  /** A whole block holds what it held, less the first entry of this name. */
  ghost predicate RemovedFrom(s: seq<byte>, t: seq<byte>, name: Name) {
    && |t| == |s| && Tiled(s, 0, |s|) && Tiled(t, 0, |t|)
    && exists k :: RemovedAt(Entries(s, 0, |s|), Entries(t, 0, |t|), k, name)
  }

  lemma {:induction false} Dropped(before: seq<Entry>, x: Entry, after: seq<Entry>)
    requires Unnamed(before, x.name) && (before != [] || after != [])
    ensures RemovedAt(before + [x] + after, before + after, |before|, x.name)
  {
    var es := before + [x] + after;
    assert es[..|before|] == before && es[|before| + 1..] == after;
  }

  /** A block whose last record has another before it. */
  ghost predicate LastTwo(s: seq<byte>, prev: nat, off: nat) {
    && |s| < 0x1_0000 && Tiled(s, 0, prev) && Tiled(s, prev, |s|) && prev < off < |s| && Tiled(s, off, |s|)
    && prev + HEADER <= |s| && off == prev + RecLen(s, prev) && off + HEADER <= |s| && off + RecLen(s, off) == |s|
    && Tiled(s, 0, off) && off + HEADER + NameLen(s, off) as int <= |s|
  }

  lemma {:induction false} AbsorbParts(s: seq<byte>, prev: nat, off: nat)
    requires LastTwo(s, prev, off)
    ensures HEADER + NameLen(s, prev) as int <= |s| - prev && U32At(s, prev) != 0 && Tiled(s, 0, |s|)
    ensures Entries(s, 0, off) == Entries(s, 0, prev) + [EntryAt(s, prev)]
    ensures Entries(s, 0, |s|) == Entries(s, 0, off) + [EntryAt(s, off)]
  {
    hide Tiled, Entries, EntryAt, RecLen;
    RecordHere(s, prev);
    RecordHere(s, off);
    FirstRecord(s, prev, |s|);
  }

  lemma {:induction false} AbsorbAligned(s: seq<byte>, prev: nat, off: nat)
    requires LastTwo(s, prev, off)
    ensures Aligned(|s| - prev)
  {
    hide RecordOk;
    TiledOrder(s, prev, |s|);
  }

  /** The last record: the one before it takes over its length. */
  lemma {:induction false} AbsorbRemoves(s: seq<byte>, prev: nat, off: nat)
    requires LastTwo(s, prev, off) && Unnamed(Entries(s, 0, off), EntryAt(s, off).name)
    ensures RemovedFrom(s, Put16(s, prev + 4, |s| - prev), EntryAt(s, off).name)
  {
    var t := Put16(s, prev + 4, |s| - prev);
    hide Tiled, Entries, EntryAt, RemovedAt, Sub, RecordOk, Unnamed, RecLen, NameLen, U32At, Put16;
    AbsorbParts(s, prev, off);
    AbsorbAligned(s, prev, off);
    AbsorbFields(s, prev);
    AbsorbLast(s, t, prev);
    var before := Entries(s, 0, off);
    Dropped(before, EntryAt(s, off), []);
    assert before + [] == before && before + [EntryAt(s, off)] + [] == before + [EntryAt(s, off)];
    assert RemovedAt(Entries(s, 0, |s|), Entries(t, 0, |t|), |before|, EntryAt(s, off).name);
  }

  lemma {:induction false} AbsorbFields(s: seq<byte>, prev: nat)
    requires |s| < 0x1_0000 && prev + HEADER + NameLen'(s, prev) <= |s|
    ensures SameOutside(s, Put16(s, prev + 4, |s| - prev), prev, |s|)
    ensures var n := HEADER + NameLen(s, prev) as int;
            Sub(Put16(s, prev + 4, |s| - prev), prev, n) == Put16(Sub(s, prev, n), 4, |s| - prev)
  {
    var n := HEADER + NameLen(s, prev) as int;
    var t := Put16(s, prev + 4, |s| - prev);
    forall i | 0 <= i < n ensures Sub(t, prev, n)[i] == Put16(Sub(s, prev, n), 4, |s| - prev)[i] {
      if !(4 <= i < 6) {
        assert t[prev + i] == s[prev + i];
      }
    }
  }

  function NameLen'(s: seq<byte>, off: nat): nat {
    if off + HEADER <= |s| then NameLen(s, off) else 0
  }

  /** The bytes after memmove(&s[to], &s[from], n). */
  function BytesMoved(s: seq<byte>, to: nat, from: nat, n: nat): (r: seq<byte>)
    requires to + n <= |s| && from + n <= |s|
    ensures |r| == |s|
  {
    Splice(s, to, Sub(s, from, n))
  }

  /** The bytes after memmove and the length update. */
  function Slid(s: seq<byte>, off: nat, next: nat, m: nat, both: u16): (t: seq<byte>)
    requires next + m <= |s| && off + m <= |s| && off + HEADER <= |s|
    ensures |t| == |s| && RecLen(t, off) == both
    ensures forall i {:trigger t[i]} :: 0 <= i < |s| && !(off + 4 <= i < off + 6) ==>
              t[i] == if off <= i < off + m then s[next + (i - off)] else s[i]
  {
    Put16(BytesMoved(s, off, next, m), off + 4, both)
  }

  lemma {:induction false} SameWord(a: seq<byte>, b: seq<byte>)
    requires |a| >= 6 && |b| >= 6 && U16At(a, 4) == U16At(b, 4)
    ensures a[4] == b[4] && a[5] == b[5]
  {
  }

  lemma {:induction false} SlideFields(s: seq<byte>, off: nat, next: nat, m: nat, both: u16)
    requires next + m <= |s| && off + HEADER <= next && next + HEADER <= |s|
    requires HEADER + NameLen(s, next) as int <= m && off as int + both as int == next + m
    ensures SameOutside(s, Slid(s, off, next, m, both), off, next + m)
    ensures var n := HEADER + NameLen(s, next) as int;
            Sub(Slid(s, off, next, m, both), off, n) == Put16(Sub(s, next, n), 4, both)
  {
    var n := HEADER + NameLen(s, next) as int;
    var t := Slid(s, off, next, m, both);
    var a, b := Sub(t, off, n), Put16(Sub(s, next, n), 4, both);
    hide Slid, Put16, Sub;
    assert U16At(a, 4) == RecLen(t, off) == U16At(b, 4);
    SameWord(a, b);
    forall i | 0 <= i < n ensures a[i] == b[i] {
      if !(4 <= i < 6) {
        assert a[i] == t[off + i];
      }
    }
  }

  lemma {:induction false} SlideTiles(s: seq<byte>, off: nat, next: nat, m: nat, both: u16)
    requires |s| < 0x1_0000 && Tiled(s, 0, off) && Tiled(s, off, |s|) && off + HEADER <= |s|
    requires next == off + RecLen(s, off) < |s| && next + HEADER <= |s| && m == RecLen(s, next)
    requires off + both as int == next + m
    ensures next + m <= |s| && off + m <= |s| && Tiled(s, next, |s|)
    ensures var t := Slid(s, off, next, m, both);
            Tiled(t, 0, |t|) && Entries(t, 0, |t|) == Entries(s, 0, off) + Entries(s, next, |s|)
  {
    hide *;
    RecordBounds(s, off, |s|);
    RecordBounds(s, next, |s|);
    assert next - off == RecLen(s, off);
    SlideFields(s, off, next, m, both);
    SlideNext(s, Slid(s, off, next, m, both), off, next, next + m);
  }

  /** Another record: the next one is moved down over it. */
  lemma {:induction false} SlideRemoves(s: seq<byte>, off: nat, next: nat, m: nat, both: u16)
    requires |s| < 0x1_0000 && Tiled(s, 0, off) && Tiled(s, off, |s|) && off + HEADER <= |s|
    requires next == off + RecLen(s, off) < |s| && next + HEADER <= |s| && m == RecLen(s, next)
    requires off + HEADER + NameLen(s, off) as int <= |s| && Unnamed(Entries(s, 0, off), EntryAt(s, off).name)
    requires off + both as int == next + m
    ensures next + m <= |s| && off + m <= |s| && RemovedFrom(s, Slid(s, off, next, m, both), EntryAt(s, off).name)
  {
    Decompose(s, off);
    SlideTiles(s, off, next, m, both);
    var before, x, after := Entries(s, 0, off), EntryAt(s, off), Entries(s, next, |s|);
    assert after != [];
    hide Tiled, Entries, EntryAt, Slid, RemovedAt, RecordOk, Unnamed, RecLen, NameLen;
    Dropped(before, x, after);
    var t := Slid(s, off, next, m, both);
    assert RemovedAt(Entries(s, 0, |s|), Entries(t, 0, |t|), |before|, x.name);
  }

  datatype Removal =
    | Absent
    | Sole     // the name's record fills the block: the whole block has to go
    | Gone

  /** memmove(&buf[to], &buf[from], n) */
  method Move(buf: array<byte>, to: nat, from: nat, n: nat)
    requires to + n <= buf.Length && from + n <= buf.Length
    modifies buf
    ensures buf[..] == BytesMoved(old(buf[..]), to, from, n)
  {
    forall i | 0 <= i < n {
      buf[to + i] := buf[from + i];
    }
  }

  /** Looks for a record with this name; `prev` is the record before it, if any. */
  method Locate(buf: array<byte>, name: Name) returns (found: bool, off: nat, prev: nat)
    requires Tiled(buf[..], 0, buf.Length)
    ensures !found ==> Unnamed(Entries(buf[..], 0, buf.Length), name)
    ensures found ==> At(buf[..], off, prev) && EntryAt(buf[..], off).name == name
                      && Unnamed(Entries(buf[..], 0, off), name)
  {
    hide Entries, Tiled, EntryAt, RecLen, NameLen;
    ghost var s := buf[..];
    found, off, prev := false, 0, 0;
    StartTiled(s);
    while off < buf.Length
      invariant buf[..] == s && off <= buf.Length
      invariant Tiled(s, 0, off) && Tiled(s, off, |s|) && Unnamed(Entries(s, 0, off), name)
      invariant off > 0 ==> prev < off && Tiled(s, 0, prev) && Tiled(s, prev, |s|)
                            && prev + HEADER <= |s| && off == prev + RecLen(s, prev)
      decreases buf.Length - off
    {
      RecordHere(s, off);
      if EntryAt(buf[..], off).name == name {
        return true, off, prev;
      }
      prev := off;
      off := off + RecLen(buf[..], off);
    }
  }

  /** A record of a tiled block and the one before it (none if it is the first). */
  ghost predicate At(s: seq<byte>, off: nat, prev: nat) {
    && Tiled(s, 0, off) && off < |s| && Tiled(s, off, |s|) && off + HEADER <= |s|
    && off + HEADER + NameLen(s, off) as int <= |s| && off + RecLen(s, off) <= |s|
    && (off > 0 ==> prev < off && Tiled(s, 0, prev) && Tiled(s, prev, |s|)
                    && prev + HEADER <= |s| && off == prev + RecLen(s, prev))
  }

  method Absorb(buf: array<byte>, prev: nat, off: nat)
    requires buf.Length < 0x1_0000 && At(buf[..], off, prev) && 0 < off && off + RecLen(buf[..], off) == buf.Length
    requires Unnamed(Entries(buf[..], 0, off), EntryAt(buf[..], off).name)
    modifies buf
    ensures RemovedFrom(old(buf[..]), buf[..], old(EntryAt(buf[..], off)).name)
  {
    hide RemovedFrom, Tiled, Entries, Unnamed, EntryAt, Put16;
    AbsorbRemoves(buf[..], prev, off);
    PutU16(buf, prev + 4, RecLen(buf[..], prev) + RecLen(buf[..], off));
  }

  lemma {:induction false} AtParts(s: seq<byte>, off: nat, prev: nat)
    requires At(s, off, prev)
    ensures Tiled(s, 0, off) && off < |s| && Tiled(s, off, |s|) && off + HEADER <= |s|
    ensures off + HEADER + NameLen(s, off) as int <= |s| && off + RecLen(s, off) <= |s| && Tiled(s, off + RecLen(s, off), |s|)
  {
    RecordBounds(s, off, |s|);
  }

  lemma {:induction false} SlideOk(s: seq<byte>, off: nat, prev: nat)
    requires |s| < 0x1_0000 && At(s, off, prev) && off + RecLen(s, off) < |s|
    requires Unnamed(Entries(s, 0, off), EntryAt(s, off).name)
    ensures var next := off + RecLen(s, off);
            && next + HEADER <= |s| && next + RecLen(s, next) <= |s|
            && RemovedFrom(s, Put16(BytesMoved(s, off, next, RecLen(s, next)), off + 4, RecLen(s, next) + RecLen(s, off)), EntryAt(s, off).name)
  {
    var len := RecLen(s, off);
    var next := off + len;
    hide *;
    AtParts(s, off, prev);
    RecordBounds(s, next, |s|);
    var m := RecLen(s, next);
    SlideRemoves(s, off, next, m, m + len);
    SlidIs(s, off, next, m, m + len);
  }

  lemma {:induction false} SlidIs(s: seq<byte>, off: nat, next: nat, m: nat, both: u16)
    requires next + m <= |s| && off + m <= |s| && off + HEADER <= |s|
    ensures Slid(s, off, next, m, both) == Put16(BytesMoved(s, off, next, m), off + 4, both)
  {
  }

  method Slide(buf: array<byte>, prev: nat, off: nat)
    requires buf.Length < 0x1_0000 && At(buf[..], off, prev) && off + RecLen(buf[..], off) < buf.Length
    requires Unnamed(Entries(buf[..], 0, off), EntryAt(buf[..], off).name)
    modifies buf
    ensures RemovedFrom(old(buf[..]), buf[..], old(EntryAt(buf[..], off)).name)
  {
    hide RemovedFrom, Tiled, Entries, Unnamed, EntryAt, Put16, BytesMoved, At, RecLen, NameLen;
    SlideOk(buf[..], off, prev);
    var len := RecLen(buf[..], off);
    var next := off + len;
    var m := RecLen(buf[..], next);
    Move(buf, off, next, m);
    PutU16(buf, off + 4, m + len);
  }

  lemma {:induction false} LookupSkips(a: seq<Entry>, e: Entry, b: seq<Entry>)
    requires Unnamed(a, e.name)
    ensures Lookup(a + [e] + b, e.name) == e.ino
  {
    if a == [] {
      assert a + [e] + b == [e] + b;
    } else {
      assert (a + [e] + b)[1..] == a[1..] + [e] + b;
      assert a[0].name != e.name && Unnamed(a[1..], e.name);
      LookupSkips(a[1..], e, b);
    }
  }

  lemma {:induction false} UnnamedLookup(es: seq<Entry>, name: Name)
    requires Unnamed(es, name)
    ensures Lookup(es, name) == 0
  {
    if es != [] {
      assert es[0].name != name && Unnamed(es[1..], name);
      UnnamedLookup(es[1..], name);
    }
  }

  /** The record Locate stopped at is the first of its name. */
  lemma {:induction false} FirstOfName(s: seq<byte>, off: nat, prev: nat)
    requires At(s, off, prev) && Unnamed(Entries(s, 0, off), EntryAt(s, off).name)
    ensures Tiled(s, 0, |s|) && Lookup(Entries(s, 0, |s|), EntryAt(s, off).name) == U32At(s, off)
  {
    hide Tiled, Entries, Unnamed, Lookup;
    Decompose(s, off);
    LookupSkips(Entries(s, 0, off), EntryAt(s, off), Entries(s, off + RecLen(s, off), |s|));
  }

  lemma {:induction false} InUseAt(s: seq<byte>, off: nat, prev: nat)
    requires At(s, off, prev)
    ensures U32At(s, off) != 0
  {
  }

  /** ext2_dir_remove_inode's pass over one block. The caller says which inode the name
      stands for; the code asserts it of the record it finds. */
  method RemoveFromBlock(buf: array<byte>, name: Name, ino: u32) returns (r: Removal)
    requires 0 < buf.Length < 0x1_0000 && Tiled(buf[..], 0, buf.Length)
    requires Lookup(Entries(buf[..], 0, buf.Length), name) in {0, ino}
    modifies buf
    ensures !r.Gone? ==> buf[..] == old(buf[..])
    ensures r.Absent? ==> Unnamed(old(Entries(buf[..], 0, buf.Length)), name)
    ensures r.Absent? <==> Lookup(old(Entries(buf[..], 0, buf.Length)), name) == 0
    ensures r.Sole? ==> var es := old(Entries(buf[..], 0, buf.Length)); |es| == 1 && es[0].name == name
    ensures r.Gone? ==> RemovedFrom(old(buf[..]), buf[..], name)
  {
    hide RemovedFrom, Tiled, Entries, Unnamed, EntryAt, RecLen, NameLen, Lookup;
    var found, off, prev := Locate(buf, name);
    if !found {
      UnnamedLookup(Entries(buf[..], 0, buf.Length), name);
      return Absent;
    }
    FirstOfName(buf[..], off, prev);
    InUseAt(buf[..], off, prev);
    assert U32At(buf[..], off) == ino;
    if RecLen(buf[..], off) + off >= buf.Length {
      if off == 0 {
        SoleRecord(buf[..]);
        return Sole;
      }
      Absorb(buf, prev, off);
    } else {
      Slide(buf, prev, off);
    }
    r := Gone;
  }

  lemma {:induction false} SoleRecord(s: seq<byte>)
    requires Tiled(s, 0, |s|) && HEADER <= |s| && RecLen(s, 0) == |s|
    ensures HEADER + NameLen(s, 0) as int <= |s| && Entries(s, 0, |s|) == [EntryAt(s, 0)]
  {
    assert Entries(s, |s|, |s|) == [];
  }

  // ---- fresh blocks and lookup -------------------------------------------------------

  /** A zeroed block whose one record fills it. */
  method FormatEntry(buf: array<byte>, e: Entry)
    requires HEADER + 0xFF <= buf.Length < 0x1_0000 && Aligned(buf.Length) && |e.name| < 0x100 && e.ino != 0
    modifies buf
    ensures Tiled(buf[..], 0, buf.Length) && Entries(buf[..], 0, buf.Length) == [e]
  {
    forall i | 0 <= i < buf.Length {
      buf[i] := 0;
    }
    WrittenIs(buf[..], 0, buf.Length, e);
    WriteRecord(buf, 0, buf.Length, e);
    OneRecord(buf[..], 0, buf.Length, e);
  }

  const DOT: Name := [46]
  const DOTDOT: Name := [46, 46]

  /** The first block of a new directory: "." in 12 bytes, ".." in the rest. */
  method FormatDir(buf: array<byte>, self: u32, parent: u32)
    requires 1024 <= buf.Length < 0x1_0000 && Aligned(buf.Length) && self != 0 && parent != 0
    modifies buf
    ensures Tiled(buf[..], 0, buf.Length)
    ensures Entries(buf[..], 0, buf.Length) == [Entry(self, DOT), Entry(parent, DOTDOT)]
    ensures RecordIs(buf[..], 0, 12, Entry(self, DOT)) && RecordIs(buf[..], 12, buf.Length - 12, Entry(parent, DOTDOT))
  {
    forall i | 0 <= i < buf.Length {
      buf[i] := 0;
    }
    ghost var s := buf[..];
    var first := AlignUp(HEADER + 1);
    WrittenIs(s, 0, first, Entry(self, DOT));
    WriteRecord(buf, 0, first, Entry(self, DOT));
    ghost var s1 := buf[..];
    WrittenIs(s1, first, buf.Length - first, Entry(parent, DOTDOT));
    WriteRecord(buf, first, buf.Length - first, Entry(parent, DOTDOT));
    TwoRecords(s1, buf[..], first, Entry(self, DOT), Entry(parent, DOTDOT));
  }

  lemma {:induction false} TwoRecords(s: seq<byte>, t: seq<byte>, first: nat, e: Entry, f: Entry)
    requires Aligned(first) && Aligned(|t|) && HEADER + |e.name| <= first && first + HEADER + |f.name| <= |t| < 0x1_0000
    requires RecordIs(s, 0, first, e) && RecordIs(t, first, |t| - first, f) && SameOutside(s, t, first, |t|)
    requires e.ino != 0 && f.ino != 0
    ensures Tiled(t, 0, |t|) && Entries(t, 0, |t|) == [e, f] && RecordIs(t, 0, first, e)
  {
    AlignedSums(|t|, first);
    OneRecord(s, 0, first, e);
    TiledAgree(s, t, 0, first);
    OneRecord(t, first, |t| - first, f);
    hide *;
    TiledConcat(t, 0, first, |t|);
  }

  /** A block takes a name of n bytes exactly if it fits behind the 12 bytes of "." and those
      kept for "..". */
  ghost predicate FirstFits(s: seq<byte>, n: nat, reserved: nat) {
    (exists off :: TakesAt(s, off, n, reserved)) <==> 12 + AlignUp(2 + reserved) + AlignUp(n + 8) <= |s|
  }

  /** So it is with the block of a new directory. */
  lemma {:induction false} FreshTakes(s: seq<byte>, self: u32, parent: u32, n: nat, reserved: nat)
    requires 1024 <= |s| < 0x1_0000 && Aligned(|s|) && self != 0 && parent != 0 && n > 0 && reserved >= HEADER
    requires RecordIs(s, 0, 12, Entry(self, DOT)) && RecordIs(s, 12, |s| - 12, Entry(parent, DOTDOT))
    ensures FirstFits(s, n, reserved)
  {
    OneRecord(s, 0, 12, Entry(self, DOT));
    OneRecord(s, 12, |s| - 12, Entry(parent, DOTDOT));
    StartTiled(s);
    hide Tiled, Entries, Sub;
    forall off: nat | TakesAt(s, off, n, reserved) ensures off == 12 {
      if off > 0 {
        NextRecord(s, 0, 0, off);
      }
      if off > 12 {
        NextRecord(s, 0, 12, off);
      }
    }
    assert TakesAt(s, 12, n, reserved) <==> 12 + AlignUp(2 + reserved) + AlignUp(n + 8) <= |s|;
  }

  /** The inode the first entry of this name stands for; 0 if there is none. */
  ghost function Lookup(es: seq<Entry>, name: Name): u32 {
    if es == [] then 0 else if es[0].name == name then es[0].ino else Lookup(es[1..], name)
  }

  /** ext2_vnode_find's pass over one block. */
  method FindInBlock(buf: array<byte>, name: Name) returns (ino: u32)
    requires 0 < buf.Length && Tiled(buf[..], 0, buf.Length)
    ensures ino == Lookup(Entries(buf[..], 0, buf.Length), name)
  {
    ghost var s := buf[..];
    var off := 0;
    while true
      invariant off < buf.Length && Tiled(s, off, |s|)
      invariant Lookup(Entries(s, off, |s|), name) == Lookup(Entries(s, 0, |s|), name)
      decreases buf.Length - off
    {
      RecordBounds(s, off, |s|);
      if U32At(buf[..], off) != 0 {
        if EntryAt(buf[..], off).name == name {
          return U32At(buf[..], off);
        }
      }
      off := off + RecLen(buf[..], off);
      if off >= buf.Length {
        return 0;
      }
    }
  }
}
