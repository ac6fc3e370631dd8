/** What the multi-step operations do to a volume, stated on its meaning: which numbers are
    free, the inode table and the block contents afterwards. */
module Effects {
  import opened Arith
  import opened Bytes
  import opened Numbering
  import opened Layout
  import opened Inodes
  import opened State
  import opened Dirents
  import opened DirBlocks
  import opened Listings

  type Data = map<nat, seq<byte>>

  /** v' has this table and these contents, and the allocators moved from v's to having
      these numbers free. */
  ghost predicate Becomes(v: View, v': View, geo: Geometry, blocks: set<nat>, inodes: set<nat>,
                          table: map<nat, Inode>, data: Data) {
    && v'.table == table && v'.data == data
    && Moved(v.blocks, v'.blocks, geo.groupBlocks, blocks)
    && Moved(v.inodes, v'.inodes, geo.groupInodes, inodes)
  }

  // ---- directories -------------------------------------------------------------------

  /** How many of the direct pointers the recorded size spans. */
  function Span(inode: Inode, bs: nat): nat
    requires bs > 0
  {
    Min(NBlocks(inode, bs), |inode.direct|)
  }

  ghost function PartAt(data: Data, b: nat): seq<Entry> {
    if b in data && Tiled(data[b], 0, |data[b]|) then Entries(data[b], 0, |data[b]|) else []
  }

  ghost function Parts(data: Data, inode: Inode, bs: nat): (ds: seq<seq<Entry>>)
    requires bs > 0
    ensures |ds| == Span(inode, bs)
    ensures forall k {:trigger ds[k]} :: 0 <= k < |ds| ==> ds[k] == PartAt(data, inode.direct[k])
  {
    seq(Span(inode, bs), k requires 0 <= k < Span(inode, bs) => PartAt(data, inode.direct[k]))
  }

  ghost function ListingOf(data: Data, inode: Inode, bs: nat): seq<Entry>
    requires bs > 0
  {
    Listing(Parts(data, inode, bs))
  }

  /** One to twelve whole blocks, each tiled by records. */
  ghost predicate DirShape(data: Data, inode: Inode, bs: nat)
    requires bs > 0
  {
    && |inode.direct| == DIRECT && 1 <= NBlocks(inode, bs) <= DIRECT
    && inode.size == Times(NBlocks(inode, bs), bs)
    && forall k :: 0 <= k < NBlocks(inode, bs) ==> BlockTiled(data, inode.direct[k], bs)
  }

  ghost predicate BlockTiled(data: Data, b: nat, bs: nat) {
    b in data && |data[b]| == bs && Tiled(data[b], 0, bs)
  }

  /** How a directory changes: a block is rewritten in place, a block is added at the end,
      or block k is dropped and the pointers after it move down. */
  datatype Edit =
    | Rewrite(k: nat, s: seq<byte>)
    | Extend(b: u32, s: seq<byte>)
    | Drop(k: nat)

  /** The edit puts e in. */
  ghost predicate EntersBy(data: Data, free: set<nat>, inode: Inode, bs: nat, e: Entry, edit: Edit)
    requires bs > 0
  {
    && DirShape(data, inode, bs)
    && match edit
       case Rewrite(k, s) =>
         k < NBlocks(inode, bs) && AddedTo(data[inode.direct[k]], s, e)
       case Extend(b, s) =>
         && NBlocks(inode, bs) < DIRECT && b in free && inode.size + bs < U32_LIMIT
         && |s| == bs && Tiled(s, 0, bs) && Entries(s, 0, bs) == [e]
       case Drop(_) => false
  }

  /** The edit takes out the first entry of this name. */
  ghost predicate LeavesBy(data: Data, inode: Inode, bs: nat, name: Name, edit: Edit)
    requires bs > 0
  {
    && DirShape(data, inode, bs)
    && match edit
       case Rewrite(k, s) =>
         && k < NBlocks(inode, bs) && RemovedFrom(data[inode.direct[k]], s, name)
         && forall j :: 0 <= j < k ==> Unnamed(PartAt(data, inode.direct[j]), name)
       case Extend(_, _) => false
       case Drop(k) =>
         && k < NBlocks(inode, bs)
         && |PartAt(data, inode.direct[k])| == 1 && PartAt(data, inode.direct[k])[0].name == name
         && forall j :: 0 <= j < k ==> Unnamed(PartAt(data, inode.direct[j]), name)
  }

  function GrowInode(inode: Inode, bs: nat, n: nat, b: u32): Inode
    requires inode.size + bs < U32_LIMIT && n < |inode.direct|
  {
    inode.(size := inode.size + bs, direct := inode.direct[n := b])
  }

  /** The pointers after the k-th move down and the last becomes 0. */
  function Shifted(ps: seq<u32>, k: nat): (r: seq<u32>)
    requires |ps| == DIRECT && k < DIRECT
    ensures |r| == DIRECT
    ensures forall i {:trigger r[i]} :: 0 <= i < DIRECT - 1 ==> r[i] == ps[if i < k then i else i + 1]
    ensures r[DIRECT - 1] == 0
  {
    seq(DIRECT, i requires 0 <= i < DIRECT =>
      if i == DIRECT - 1 then 0 as u32 else if i < k then ps[i] else ps[i + 1])
  }

  function ShrinkInode(inode: Inode, bs: nat, k: nat): Inode
    requires |inode.direct| == DIRECT && k < DIRECT && bs <= inode.size
  {
    inode.(size := inode.size - bs, direct := Shifted(inode.direct, k))
  }

  ghost function EditInode(inode: Inode, bs: nat, edit: Edit): Inode
    requires bs > 0
  {
    match edit
    case Rewrite(_, _) => inode
    case Extend(b, _) =>
      if inode.size + bs < U32_LIMIT && NBlocks(inode, bs) < |inode.direct|
      then GrowInode(inode, bs, NBlocks(inode, bs), b) else inode
    case Drop(k) =>
      if |inode.direct| == DIRECT && k < DIRECT && bs <= inode.size then ShrinkInode(inode, bs, k) else inode
  }

  ghost function EditData(data: Data, inode: Inode, edit: Edit): Data {
    match edit
    case Rewrite(k, s) => if k < |inode.direct| then data[inode.direct[k] as nat := s] else data
    case Extend(b, s) => data[b as nat := s]
    case Drop(_) => data
  }

  ghost function EditFree(free: set<nat>, inode: Inode, edit: Edit): set<nat> {
    match edit
    case Rewrite(_, _) => free
    case Extend(b, _) => free - {b as nat}
    case Drop(k) => if k < |inode.direct| then free + {inode.direct[k] as nat} else free
  }

  /** ext2_dir_add_inode did this edit to directory d. */
  ghost predicate Enters(v: View, v': View, geo: Geometry, d: nat, e: Entry, edit: Edit)
    requires geo.blockSize > 0
  {
    && d in v.table
    && EntersBy(v.data, v.blocks.free, v.table[d], geo.blockSize, e, edit)
    && Becomes(v, v', geo, EditFree(v.blocks.free, v.table[d], edit), v.inodes.free,
               v.table[d := EditInode(v.table[d], geo.blockSize, edit)], EditData(v.data, v.table[d], edit))
  }

  /** ext2_dir_remove_inode did this edit to directory d. */
  ghost predicate Leaves(v: View, v': View, geo: Geometry, d: nat, name: Name, edit: Edit)
    requires geo.blockSize > 0
  {
    && d in v.table
    && LeavesBy(v.data, v.table[d], geo.blockSize, name, edit)
    && Becomes(v, v', geo, EditFree(v.blocks.free, v.table[d], edit), v.inodes.free,
               v.table[d := EditInode(v.table[d], geo.blockSize, edit)], EditData(v.data, v.table[d], edit))
  }

  // ---- making and removing inodes ------------------------------------------------------

  /** An empty regular file e.ino was created and named in directory d. */
  ghost predicate Creates(v: View, v': View, geo: Geometry, d: nat, e: Entry, node: Inode, edit: Edit)
    requires geo.blockSize > 0
  {
    && d in v.table && e.ino as nat in v.inodes.free && e.ino as nat != d
    && IsReg(node) && node.size == 0 && ZeroFrom(node, 0) && InodeOk(node, geo.inodeSize)
    && EntersBy(v.data, v.blocks.free, v.table[d], geo.blockSize, e, edit)
    && Becomes(v, v', geo, EditFree(v.blocks.free, v.table[d], edit), v.inodes.free - {e.ino as nat},
               v.table[d := EditInode(v.table[d], geo.blockSize, edit)][e.ino as nat := node],
               EditData(v.data, v.table[d], edit))
  }

  /** A directory e.ino, whose one block nb holds "." and "..", was created and named in d. */
  ghost predicate Makes(v: View, v': View, geo: Geometry, d: nat, e: Entry, node: Inode, nb: u32, s: seq<byte>, edit: Edit)
    requires geo.blockSize > 0
  {
    && d in v.table && d < U32_LIMIT && e.ino as nat in v.inodes.free && e.ino as nat != d && nb as nat in v.blocks.free
    && IsDir(node) && node.size == geo.blockSize && InodeOk(node, geo.inodeSize) && node.direct[0] == nb
    && |s| == geo.blockSize && Tiled(s, 0, |s|) && Entries(s, 0, |s|) == [Entry(e.ino, DOT), Entry(d, DOTDOT)]
    && EntersBy(v.data, v.blocks.free - {nb as nat}, v.table[d], geo.blockSize, e, edit)
    && Becomes(v, v', geo, EditFree(v.blocks.free - {nb as nat}, v.table[d], edit), v.inodes.free - {e.ino as nat},
               v.table[d := EditInode(v.table[d], geo.blockSize, edit)][e.ino as nat := node],
               EditData(v.data, v.table[d], edit)[nb as nat := s])
  }

  ghost function BlockSet(inode: Inode, bs: nat): set<nat>
    requires bs > 0
  {
    set k | 0 <= k < Span(inode, bs) :: inode.direct[k] as nat
  }

  /** Size 0 and no pointers where the size spanned some. */
  function Emptied(inode: Inode, bs: nat): (r: Inode)
    requires bs > 0
    ensures |r.direct| == |inode.direct| && r.mode == inode.mode && r.size == 0
  {
    inode.(size := 0, direct := seq(|inode.direct|, i requires 0 <= i < |inode.direct| =>
                                     if i < NBlocks(inode, bs) then 0 as u32 else inode.direct[i]))
  }

  /** Inode x gave back its blocks and itself. */
  ghost predicate Vacates(v: View, v': View, geo: Geometry, x: nat)
    requires geo.blockSize > 0
  {
    && x in v.table
    && Becomes(v, v', geo, v.blocks.free + BlockSet(v.table[x], geo.blockSize), v.inodes.free + {x},
               v.table[x := Emptied(v.table[x], geo.blockSize)], v.data)
  }

  // ---- what an edit does to the listing ------------------------------------------------

  /** No block twice. */
  ghost predicate NoRepeats(inode: Inode, bs: nat)
    requires bs > 0
  {
    forall j, k :: 0 <= j < k < Span(inode, bs) ==> inode.direct[j] != inode.direct[k]
  }

  /** The in-range pointers of an inode the driver can change: at most twelve, distinct, and
      in use. */
  ghost predicate OwnBlocks(v: View, inode: Inode, bs: nat)
    requires bs > 0
  {
    && |inode.direct| == DIRECT && NBlocks(inode, bs) <= DIRECT && NoRepeats(inode, bs)
    && forall k :: 0 <= k < NBlocks(inode, bs) ==> inode.direct[k] as nat in v.data && inode.direct[k] !in v.blocks.free
  }

  lemma {:induction false} GrowSpan(inode: Inode, bs: nat, n: nat, b: u32)
    requires bs > 0 && n == NBlocks(inode, bs) < |inode.direct| && inode.size == Times(n, bs) && inode.size + bs < U32_LIMIT
    ensures NBlocks(GrowInode(inode, bs, n, b), bs) == n + 1
    ensures GrowInode(inode, bs, n, b).size == Times(n + 1, bs)
  {
    assert Times(n + 1, bs) == bs + Times(n, bs);
    CeilUnique(inode.size + bs, n + 1, bs);
  }

  lemma {:induction false} ShrinkSpan(inode: Inode, bs: nat, n: nat, k: nat)
    requires bs > 0 && n == NBlocks(inode, bs) && 1 <= n <= DIRECT && inode.size == Times(n, bs)
    requires |inode.direct| == DIRECT && k < n
    ensures bs <= inode.size && NBlocks(ShrinkInode(inode, bs, k), bs) == n - 1
    ensures ShrinkInode(inode, bs, k).size == Times(n - 1, bs)
  {
    assert Times(n, bs) == bs + Times(n - 1, bs);
    CeilUnique(inode.size - bs, n - 1, bs);
  }

  /** Rewriting block k leaves the other blocks' entries. */
  lemma {:induction false} RewriteParts(data: Data, inode: Inode, bs: nat, k: nat, s: seq<byte>)
    requires bs > 0 && NoRepeats(inode, bs) && k < Span(inode, bs)
    ensures var ds, ds' := Parts(data, inode, bs), Parts(data[inode.direct[k] as nat := s], inode, bs);
            forall i :: 0 <= i < |ds| && i != k ==> ds'[i] == ds[i]
  {
    var data' := data[inode.direct[k] as nat := s];
    forall i | 0 <= i < Span(inode, bs) && i != k ensures PartAt(data', inode.direct[i]) == PartAt(data, inode.direct[i]) {
      assert inode.direct[i] != inode.direct[k];
    }
  }

  lemma {:induction false} RewriteShape(data: Data, inode: Inode, bs: nat, k: nat, s: seq<byte>)
    requires bs > 0 && DirShape(data, inode, bs) && k < NBlocks(inode, bs)
    requires |s| == bs && Tiled(s, 0, bs)
    ensures DirShape(data[inode.direct[k] as nat := s], inode, bs)
  {
    var data' := data[inode.direct[k] as nat := s];
    forall i | 0 <= i < NBlocks(inode, bs) ensures BlockTiled(data', inode.direct[i], bs) {
      assert BlockTiled(data, inode.direct[i], bs);
    }
  }

  lemma {:induction false} EnterByRewrite(data: Data, inode: Inode, bs: nat, e: Entry, k: nat, s: seq<byte>) returns (p: nat)
    requires bs > 0 && DirShape(data, inode, bs) && NoRepeats(inode, bs)
    requires k < NBlocks(inode, bs) && AddedTo(data[inode.direct[k]], s, e)
    ensures p > 0 && Inserted(ListingOf(data, inode, bs), ListingOf(data[inode.direct[k] as nat := s], inode, bs), p, e)
    ensures DirShape(data[inode.direct[k] as nat := s], inode, bs)
  {
    var data' := data[inode.direct[k] as nat := s];
    assert BlockTiled(data, inode.direct[k], bs);
    assert |s| == bs && Tiled(s, 0, bs) && Span(inode, bs) == NBlocks(inode, bs);
    RewriteShape(data, inode, bs, k, s);
    RewriteParts(data, inode, bs, k, s);
    var ds, ds' := Parts(data, inode, bs), Parts(data', inode, bs);
    assert ds[k] == Entries(data[inode.direct[k]], 0, bs) && ds'[k] == Entries(s, 0, bs);
    var j: nat :| InsertedAt(ds[k], ds'[k], j, e);
    assert j >= 1 && Inserted(ds[k], ds'[k], j, e);
    hide DirShape, NoRepeats, AddedTo, Inserted, InsertedAt, Parts, PartAt, Tiled, Entries, BlockTiled, NBlocks, Span;
    p := InsertFlat(ds, ds', k, j, e, |ds|);
  }

  lemma {:induction false} LeaveByRewrite(data: Data, inode: Inode, bs: nat, name: Name, k: nat, s: seq<byte>) returns (p: nat)
    requires bs > 0 && DirShape(data, inode, bs) && NoRepeats(inode, bs)
    requires k < NBlocks(inode, bs) && RemovedFrom(data[inode.direct[k]], s, name)
    ensures Removed(ListingOf(data, inode, bs), ListingOf(data[inode.direct[k] as nat := s], inode, bs), p)
    ensures ListingOf(data, inode, bs)[p].name == name
    ensures DirShape(data[inode.direct[k] as nat := s], inode, bs)
  {
    var data' := data[inode.direct[k] as nat := s];
    assert BlockTiled(data, inode.direct[k], bs);
    assert |s| == bs && Tiled(s, 0, bs) && Span(inode, bs) == NBlocks(inode, bs);
    RewriteShape(data, inode, bs, k, s);
    RewriteParts(data, inode, bs, k, s);
    var ds, ds' := Parts(data, inode, bs), Parts(data', inode, bs);
    assert ds[k] == Entries(data[inode.direct[k]], 0, bs) && ds'[k] == Entries(s, 0, bs);
    var j: nat :| RemovedAt(ds[k], ds'[k], j, name);
    assert ds[k][j].name == name && Removed(ds[k], ds'[k], j);
    p := RemoveFlat(ds, ds', k, j, |ds|);
    hide DirShape, NoRepeats, RemovedFrom, RemovedAt, Parts, PartAt, Tiled, Entries, BlockTiled, NBlocks, Span;
  }

  lemma {:induction false} EnterByExtend(data: Data, inode: Inode, bs: nat, e: Entry, b: u32, s: seq<byte>)
    requires bs > 0 && DirShape(data, inode, bs) && NBlocks(inode, bs) < DIRECT && inode.size + bs < U32_LIMIT
    requires |s| == bs && Tiled(s, 0, bs) && Entries(s, 0, bs) == [e]
    requires forall i :: 0 <= i < NBlocks(inode, bs) ==> inode.direct[i] != b
    ensures var inode' := GrowInode(inode, bs, NBlocks(inode, bs), b); var data' := data[b as nat := s];
            && DirShape(data', inode', bs)
            && Inserted(ListingOf(data, inode, bs), ListingOf(data', inode', bs), |ListingOf(data, inode, bs)|, e)
  {
    var n := NBlocks(inode, bs);
    var inode', data' := GrowInode(inode, bs, n, b), data[b as nat := s];
    GrowSpan(inode, bs, n, b);
    forall i | 0 <= i < n + 1 ensures BlockTiled(data', inode'.direct[i], bs) {
      assert i < n ==> BlockTiled(data, inode.direct[i], bs);
    }
    var ds, ds' := Parts(data, inode, bs), Parts(data', inode', bs);
    forall i | 0 <= i < n ensures ds'[i] == ds[i] {
    }
    assert ds'[n] == [e];
    hide DirShape, Parts, PartAt, Tiled, Entries, BlockTiled, NBlocks, Span, Inserted;
    AppendFlat(ds, ds', e);
  }

  lemma {:induction false} LeaveByDrop(data: Data, inode: Inode, bs: nat, k: nat) returns (p: nat)
    requires bs > 0 && DirShape(data, inode, bs) && 1 < NBlocks(inode, bs) && k < NBlocks(inode, bs)
    requires |PartAt(data, inode.direct[k])| == 1
    ensures Removed(ListingOf(data, inode, bs), ListingOf(data, EditInode(inode, bs, Drop(k)), bs), p)
    ensures ListingOf(data, inode, bs)[p] == PartAt(data, inode.direct[k])[0]
    ensures DirShape(data, EditInode(inode, bs, Drop(k)), bs)
  {
    hide DirShape, PartAt, BlockTiled, EditInode, Without, NBlocks;
    DropShape(data, inode, bs, k);
    DropParts(data, inode, bs, k);
    p := DropFlat(Parts(data, inode, bs), Parts(data, EditInode(inode, bs, Drop(k)), bs), k, NBlocks(inode, bs));
  }

  lemma {:induction false} DropShape(data: Data, inode: Inode, bs: nat, k: nat)
    requires bs > 0 && DirShape(data, inode, bs) && 1 < NBlocks(inode, bs) && k < NBlocks(inode, bs)
    ensures |inode.direct| == DIRECT && bs <= inode.size && EditInode(inode, bs, Drop(k)) == ShrinkInode(inode, bs, k)
    ensures Span(inode, bs) == NBlocks(inode, bs) == Span(ShrinkInode(inode, bs, k), bs) + 1 <= DIRECT
    ensures DirShape(data, EditInode(inode, bs, Drop(k)), bs)
  {
    var n := NBlocks(inode, bs);
    ShrinkSpan(inode, bs, n, k);
    var inode' := ShrinkInode(inode, bs, k);
    hide NBlocks;
    forall i | 0 <= i < n - 1 ensures BlockTiled(data, inode'.direct[i], bs) {
      assert BlockTiled(data, inode.direct[if i < k then i else i + 1], bs);
    }
  }

  lemma {:induction false} DropParts(data: Data, inode: Inode, bs: nat, k: nat)
    requires bs > 0 && DirShape(data, inode, bs) && 1 < NBlocks(inode, bs) && k < NBlocks(inode, bs)
    ensures Without(Parts(data, inode, bs), Parts(data, EditInode(inode, bs, Drop(k)), bs), k)
    ensures Parts(data, inode, bs)[k] == PartAt(data, inode.direct[k])
  {
    hide DirShape, PartAt, EditInode, NBlocks, Span;
    DropShape(data, inode, bs, k);
    var ds, ds' := Parts(data, inode, bs), Parts(data, EditInode(inode, bs, Drop(k)), bs);
    forall i {:trigger ds'[i]} | 0 <= i < |ds'| ensures ds'[i] == ds[if i < k then i else i + 1] {
    }
  }

  /** A name taken out of a directory whose first entry is "." never costs it the first
      block, unless the name is ".". */
  lemma {:induction false} FirstBlockStays(data: Data, inode: Inode, bs: nat, name: Name, k: nat)
    requires bs > 0 && LeavesBy(data, inode, bs, name, Drop(k)) && name != DOT
    requires ListingOf(data, inode, bs) != [] && ListingOf(data, inode, bs)[0].name == DOT
    ensures 0 < k && 1 < NBlocks(inode, bs)
  {
    var ds := Parts(data, inode, bs);
    FirstIsFirst(ds, |ds|);
    assert ds[0] == PartAt(data, inode.direct[0]);
    assert BlockTiled(data, inode.direct[0], bs);
    assert ds[0] != [];
  }

  lemma {:induction false} FirstIsFirst(ds: seq<seq<Entry>>, n: nat)
    requires 1 <= n <= |ds|
    ensures ds[0] != [] ==> Flat(ds, n) != [] && Flat(ds, n)[0] == ds[0][0]
  {
    if n > 1 {
      FirstIsFirst(ds, n - 1);
    } else {
      assert Flat(ds, 0) == [];
    }
  }

  // ---- looking a name up over the blocks -------------------------------------------------

  /** Records in use never have inode number 0. */
  ghost predicate InUse(es: seq<Entry>) {
    forall i :: 0 <= i < |es| ==> es[i].ino != 0
  }

  lemma {:induction false} EntriesInUse(s: seq<byte>, a: nat, b: nat)
    requires Tiled(s, a, b)
    ensures InUse(Entries(s, a, b))
    decreases b - a
  {
    if a != b {
      EntriesInUse(s, a + RecLen(s, a), b);
    }
  }

  lemma {:induction false} InUseConcat(a: seq<Entry>, b: seq<Entry>)
    requires InUse(a) && InUse(b)
    ensures InUse(a + b)
  {
  }

  lemma {:induction false} FlatInUse(data: Data, inode: Inode, bs: nat, n: nat)
    requires bs > 0 && n <= Span(inode, bs)
    ensures InUse(Flat(Parts(data, inode, bs), n))
  {
    if n > 0 {
      FlatInUse(data, inode, bs, n - 1);
      var b := inode.direct[n - 1] as nat;
      assert Parts(data, inode, bs)[n - 1] == PartAt(data, b);
      if b in data && Tiled(data[b], 0, |data[b]|) {
        EntriesInUse(data[b], 0, |data[b]|);
      }
      InUseConcat(Flat(Parts(data, inode, bs), n - 1), PartAt(data, b));
    }
  }

  lemma {:induction false} LookupNone(es: seq<Entry>, name: Name)
    requires InUse(es)
    ensures Lookup(es, name) == 0 <==> Unnamed(es, name)
    ensures Lookup(es, name) != 0 ==> Entry(Lookup(es, name), name) in es
  {
    if es != [] {
      var rest := es[1..];
      assert forall i :: 0 <= i < |rest| ==> rest[i] == es[i + 1];
      assert forall i :: 1 <= i < |es| ==> es[i] == rest[i - 1];
      LookupNone(rest, name);
      if es[0].name == name {
        assert Entry(es[0].ino, name) == es[0];
      }
    }
  }

  /** One more block of the search. */
  lemma {:induction false} LookupNext(data: Data, inode: Inode, bs: nat, name: Name, i: nat)
    requires bs > 0 && i < Span(inode, bs)
    ensures var ds := Parts(data, inode, bs);
            Lookup(Flat(ds, i + 1), name)
            == if Lookup(Flat(ds, i), name) != 0 then Lookup(Flat(ds, i), name) else Lookup(PartAt(data, inode.direct[i]), name)
  {
    FlatInUse(data, inode, bs, i);
    LookupConcat(Flat(Parts(data, inode, bs), i), PartAt(data, inode.direct[i]), name);
  }

  /** A name found in the first blocks is found in all of them. */
  lemma {:induction false} LookupStays(data: Data, inode: Inode, bs: nat, name: Name, i: nat, n: nat)
    requires bs > 0 && i <= n <= Span(inode, bs) && Lookup(Flat(Parts(data, inode, bs), i), name) != 0
    ensures Lookup(Flat(Parts(data, inode, bs), n), name) == Lookup(Flat(Parts(data, inode, bs), i), name)
    decreases n - i
  {
    if i < n {
      LookupNext(data, inode, bs, name, i);
      LookupStays(data, inode, bs, name, i + 1, n);
    }
  }

  lemma {:induction false} LookupEmpty(name: Name)
    ensures Lookup([], name) == 0
  {
  }
}
