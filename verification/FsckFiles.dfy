/** Writing and truncating files keeps a volume clean. */
module FsckFiles {
  import opened Numbering
  import opened Layout
  import opened Inodes
  import opened State
  import opened Listings
  import opened Effects
  import opened Files
  import opened Fsck
  import opened FsckDirs
  import opened FsckMake

  function AfterChange(c: Catalog, i: nat, inode: Inode, inode': Inode, bs: nat): Catalog
    requires bs > 0
  {
    var n := Span(inode, bs);
    if n < Span(inode', bs) then Catalog(c.owner[inode'.direct[n] as nat := Place(i, n)], c.home) else c
  }

  lemma {:induction false} ChangeSane(v: View, v': View, geo: Geometry, o: Owners, i: nat, inode': Inode, data': Data, taken: set<nat>, given: set<nat>)
    requires Sane(v, geo) && Owns(v, geo.blockSize, o, i) && Changes(v, v', geo, i, inode', data', taken, given)
    ensures Sane(v', geo)
  {
    var blocks' := v.blocks.free - taken + given;
    forall b | b in blocks' ensures b in data' {
      if b in given {
        OwnedBlocks(v, geo.blockSize, o, i, b);
      }
    }
    assert TableFits(v.table[i := inode'], geo) && DataFits(data', geo);
    hide Owns, BlockSet, Moved, PointerOk, InodeOk, TableFits, DataFits;
    SaneAfter(v, v', geo, blocks', v.inodes.free, v.table[i := inode'], data');
  }

  lemma {:induction false} ChangeOwns(v: View, v': View, geo: Geometry, c: Catalog, i: nat, inode': Inode, data': Data, taken: set<nat>, given: set<nat>)
    requires geo.blockSize > 0 && Owns(v, geo.blockSize, c.owner, i)
    requires Changes(v, v', geo, i, inode', data', taken, given) && forall b :: b in v.blocks.free ==> b in v.data
    ensures Owns(v', geo.blockSize, AfterChange(c, i, v.table[i], inode', geo.blockSize).owner, i)
  {
    var bs, inode := geo.blockSize, v.table[i];
    var o' := AfterChange(c, i, inode, inode', bs).owner;
    forall k | 0 <= k < Span(inode', bs) ensures OwnedAt(v', o', inode'.direct[k], i, k) {
      assert PointerOk(inode, inode', bs, taken, given, k);
      if k < Span(inode, bs) {
        assert OwnedAt(v, c.owner, inode.direct[k], i, k);
        if Span(inode, bs) < Span(inode', bs) {
          assert PointerOk(inode, inode', bs, taken, given, Span(inode, bs));
        }
      } else {
        NotGiven(v, bs, c.owner, i, inode'.direct[k], given);
      }
    }
  }

  lemma {:induction false} NotGiven(v: View, bs: nat, o: Owners, i: nat, b: nat, given: set<nat>)
    requires bs > 0 && Owns(v, bs, o, i) && given <= BlockSet(v.table[i], bs) && b in v.blocks.free
    ensures b !in given
  {
    forall g | g in given ensures g !in v.blocks.free {
      OwnedBlocks(v, bs, o, i, g);
    }
  }

  lemma {:induction false} ChangeOutside(v: View, v': View, geo: Geometry, c: Catalog, i: nat, inode': Inode, data': Data, taken: set<nat>, given: set<nat>)
    requires geo.blockSize > 0 && Owns(v, geo.blockSize, c.owner, i)
    requires Changes(v, v', geo, i, inode', data', taken, given)
    ensures Outside(v, v', c.owner, AfterChange(c, i, v.table[i], inode', geo.blockSize).owner, {i})
  {
    var bs, o := geo.blockSize, c.owner;
    var o' := AfterChange(c, i, v.table[i], inode', bs).owner;
    if Span(v.table[i], bs) < Span(inode', bs) {
      assert PointerOk(v.table[i], inode', bs, taken, given, Span(v.table[i], bs));
    }
    forall b ensures BlockKept(v, v', o, o', {i}, b) {
      if b in BlockSet(v.table[i], bs) {
        OwnedBlocks(v, bs, o, i, b);
      }
    }
  }

  /** Changing a file keeps the volume clean. */
  lemma {:induction false} ChangeKeeps(v: View, v': View, geo: Geometry, c: Catalog, i: nat, inode': Inode, data': Data, taken: set<nat>, given: set<nat>)
    requires Ok(v, geo, c) && i in c.Live() && i in v.table && !IsDir(v.table[i])
    requires Changes(v, v', geo, i, inode', data', taken, given)
    ensures Ok(v', geo, AfterChange(c, i, v.table[i], inode', geo.blockSize))
    ensures TreeOf(v', geo.blockSize, AfterChange(c, i, v.table[i], inode', geo.blockSize).Live())
         == TreeOf(v, geo.blockSize, c.Live())
  {
    var bs, live := geo.blockSize, c.Live();
    var c' := AfterChange(c, i, v.table[i], inode', bs);
    hide *;
    OkParts(v, geo, c);
    LiveUsed(v, geo, c, i);
    HoldsOwns(v, bs, c.owner, i);
    SaneBlocks(v, geo);
    ChangedInode(v, v', geo, i, inode', data', taken, given);
    ChangedCatalog(c, i, v.table[i], inode', bs);
    ChangeSane(v, v', geo, c.owner, i, inode', data', taken, given);
    ChangeOwns(v, v', geo, c, i, inode', data', taken, given);
    ChangeOutside(v, v', geo, c, i, inode', data', taken, given);
    Frame(v, v', bs, c.owner, c'.owner, {i}, live);
    HoldsZero(v, bs, c.owner, i);
    ChangeZero(v, v', geo, i, inode', data', taken, given);
    HoldsFile(v', bs, c'.owner, i);
    RestoreHold(v', bs, c'.owner, live, i);
    SameTree(v, v', bs, live, i);
    OkFrom(v', geo, c');
  }

  lemma {:induction false} HoldsOwns(v: View, bs: nat, o: Owners, i: nat)
    requires bs > 0 && Holds(v, bs, o, i)
    ensures Owns(v, bs, o, i)
  {
  }

  lemma {:induction false} SaneBlocks(v: View, geo: Geometry)
    requires Sane(v, geo)
    ensures forall b :: b in v.blocks.free ==> b in v.data
  {
  }

  lemma {:induction false} ChangedInode(v: View, v': View, geo: Geometry, i: nat, inode': Inode, data': Data, taken: set<nat>, given: set<nat>)
    requires geo.blockSize > 0 && i in v.table && !IsDir(v.table[i])
    requires Changes(v, v', geo, i, inode', data', taken, given)
    ensures i in v'.table && !IsDir(v'.table[i])
  {
  }

  lemma {:induction false} ChangedCatalog(c: Catalog, i: nat, inode: Inode, inode': Inode, bs: nat)
    requires bs > 0
    ensures var c' := AfterChange(c, i, inode, inode', bs); c'.home == c.home && c'.Live() == c.Live()
  {
  }

  lemma {:induction false} HoldsZero(v: View, bs: nat, o: Owners, i: nat)
    requires bs > 0 && Holds(v, bs, o, i) && !IsDir(v.table[i])
    ensures ZeroFrom(v.table[i], NBlocks(v.table[i], bs))
  {
  }

  /** The pointers behind the blocks stay 0. */
  lemma {:induction false} ChangeZero(v: View, v': View, geo: Geometry, i: nat, inode': Inode, data': Data, taken: set<nat>, given: set<nat>)
    requires geo.blockSize > 0 && Changes(v, v', geo, i, inode', data', taken, given)
    requires i in v.table && ZeroFrom(v.table[i], NBlocks(v.table[i], geo.blockSize))
    ensures i in v'.table && ZeroFrom(v'.table[i], NBlocks(v'.table[i], geo.blockSize))
  {
    hide NBlocks, Moved, BlockSet, PointerOk;
    var n' := NBlocks(inode', geo.blockSize);
    forall k | n' <= k < DIRECT ensures inode'.direct[k] == 0 {
      assert TailOk(v.table[i], inode', geo.blockSize, k);
    }
  }

  lemma {:induction false} HoldsFile(v: View, bs: nat, o: Owners, i: nat)
    requires bs > 0 && Owns(v, bs, o, i) && i in v.table && !IsDir(v.table[i]) && ZeroFrom(v.table[i], NBlocks(v.table[i], bs))
    ensures Holds(v, bs, o, i)
  {
  }

  lemma {:induction false} RestoreHold(v: View, bs: nat, o: Owners, live: set<nat>, i: nat)
    requires bs > 0 && AllHold(v, bs, o, live - {i}) && Holds(v, bs, o, i)
    ensures AllHold(v, bs, o, live)
  {
    hide Holds;
    forall j | j in live ensures Holds(v, bs, o, j) {
      assert j == i || j in live - {i};
    }
  }

  lemma {:induction false} SameTree(v: View, v': View, bs: nat, live: set<nat>, i: nat)
    requires bs > 0 && TreeOf(v', bs, live - {i}) == TreeOf(v, bs, live - {i})
    requires i in v.table && i in v'.table && !IsDir(v.table[i]) && !IsDir(v'.table[i])
    ensures TreeOf(v', bs, live) == TreeOf(v, bs, live)
  {
    hide ListingOf, Content, IsDir;
    var s, s' := TreeOf(v, bs, live - {i}), TreeOf(v', bs, live - {i});
    var t, t' := TreeOf(v, bs, live), TreeOf(v', bs, live);
    forall a ensures (a in t <==> a in t') && (a in t ==> t[a] == t'[a]) {
      assert a != i ==> (a in t <==> a in s) && (a in t' <==> a in s');
      assert a in s ==> s[a] == t[a] && s'[a] == t'[a];
    }
  }

  // ---- what a file of a clean volume is ----------------------------------------------------

  lemma {:induction false} OwnedPointers(v: View, bs: nat, o: Owners, i: nat)
    requires bs > 0 && Owns(v, bs, o, i) && NoRepeats(v.table[i], bs) && NBlocks(v.table[i], bs) <= DIRECT
    ensures OwnBlocks(v, v.table[i], bs)
  {
    hide NoRepeats, NBlocks;
    forall k | 0 <= k < NBlocks(v.table[i], bs)
      ensures v.table[i].direct[k] as nat in v.data && v.table[i].direct[k] !in v.blocks.free
    {
      assert OwnedAt(v, o, v.table[i].direct[k], i, k);
    }
  }

  lemma {:induction false} CleanFile(v: View, geo: Geometry, c: Catalog, i: nat)
    requires Ok(v, geo, c) && i in c.Live() && i in v.table && NBlocks(v.table[i], geo.blockSize) <= DIRECT
    ensures OwnBlocks(v, v.table[i], geo.blockSize)
  {
    hide *;
    OkParts(v, geo, c);
    LiveUsed(v, geo, c, i);
    HoldsOwns(v, geo.blockSize, c.owner, i);
    OwnsNoRepeats(v, geo.blockSize, c.owner, i);
    OwnedPointers(v, geo.blockSize, c.owner, i);
  }

  /** And its pointers behind them are 0. */
  lemma {:induction false} CleanTail(v: View, geo: Geometry, c: Catalog, i: nat)
    requires Ok(v, geo, c) && i in c.Live() && i in v.table && !IsDir(v.table[i])
    ensures geo.blockSize > 0 && ZeroFrom(v.table[i], NBlocks(v.table[i], geo.blockSize))
  {
    hide Ok, Holds, ZeroFrom, IsDir;
    OkParts(v, geo, c);
    LiveUsed(v, geo, c, i);
    HoldsZero(v, geo.blockSize, c.owner, i);
  }
}
