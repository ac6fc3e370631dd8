/** Runs of operations: whatever is done to a clean volume, it stays clean. */
module Runs {
  import opened Arith
  import opened Bytes
  import opened Numbering
  import opened Layout
  import opened Inodes
  import opened State
  import opened Dirents
  import opened DirBlocks
  import opened Listings
  import opened Names
  import opened Effects
  import opened Files
  import opened Fsck
  import opened FsckDirs
  import opened FsckMake
  import opened FsckFiles
  import opened VnodeOps
  import opened VnodeUnlink
  import opened VnodeWrite
  import opened VnodeTrunc
  import opened Aheads

  /** A write through an open vnode: the inode in memory after it, the positions, the bytes,
      the block it took, if any, and the result. */
  datatype Writing = Writing(inode': Inode, pos: nat, pos': nat, d: seq<byte>, taken: set<nat>, res: int)

  /** A call that returned: creat, mkdir, unlink (vm is the view when the inode has gone but
      its name has not), write, a write that ran out of space, a further write through a
      vnode on which one did, truncate, a failed creat or mkdir; or the last close of a
      vnode, so that the next lookup reads the inode from the device. */
  datatype Step =
    | Create(d: nat, e: Entry, node: Inode, edit: Edit)
    | Make(d: nat, made: Made)
    | Remove(vm: View, d: nat, e: Entry, edit: Edit)
    | Put(i: nat, inode': Inode, pos: nat, d': seq<byte>, taken: set<nat>)
    | PutPart(i: nat, w: Writing)
    | Retry(i: nat, w: Writing)
    | Reload(i: nat)
    | Cut(i: nat, inode': Inode, length: nat)
    | Fail

  /** The inodes in memory that are ahead of the device. */
  type Open = map<nat, Inode>

  ghost predicate File(v: View, c: Catalog, i: nat) {
    i in c.Live() && i in v.table && !IsDir(v.table[i])
  }

  /** A write that runs out of space, through a vnode whose inode is the one on the device. */
  ghost predicate PutsPart(v: View, v': View, geo: Geometry, i: nat, w: Writing)
    requires geo.blockSize > 0 && i in v.table
  {
    var inode := v.table[i];
    && NBlocks(inode, geo.blockSize) <= DIRECT
    && w.pos <= inode.size && Carried(v.data, inode, w.pos, |w.d|, geo.blockSize) && WriteSafe(inode.size, w.pos, |w.d|, geo.blockSize)
    && Reached(inode, w.pos, |w.d|, geo.blockSize) < |w.d| && v.blocks.free == {}
    && DidWrite(v, v', geo, i, inode, w.inode', w.pos, w.pos', w.d, w.taken, w.res)
  }

  /** A harmless write through a vnode whose inode is ahead. */
  ghost predicate Retries(v: View, v': View, geo: Geometry, i: nat, inode: Inode, w: Writing)
    requires geo.blockSize > 0 && i in v.table
  {
    && w.pos <= inode.size && Carried(v.data, inode, w.pos, |w.d|, geo.blockSize)
    && Harmless(v.blocks.free, NBlocks(v.table[i], geo.blockSize), inode, w.pos, |w.d|, geo.blockSize)
    && DidWrite(v, v', geo, i, inode, w.inode', w.pos, w.pos', w.d, w.taken, w.res)
  }

  /** The step leads from v to v'. The caller did what the layer above does and looked names
      up first; and calls through a vnode whose inode is ahead are harmless writes, which
      is exactly when they may be made (Aheads.AheadWriteExact). */
  ghost predicate StepOk(v: View, v': View, geo: Geometry, c: Catalog, ahead: Open, step: Step)
    requires geo.blockSize > 0
  {
    match step
    case Create(d, e, node, edit) =>
      LiveDir(v, c.Live(), d) && Unnamed(ListingOf(v.data, v.table[d], geo.blockSize), e.name)
      && Creates(v, v', geo, d, e, node, edit)
    case Make(d, made) =>
      LiveDir(v, c.Live(), d) && Unnamed(ListingOf(v.data, v.table[d], geo.blockSize), made.e.name)
      && Makes(v, v', geo, d, made.e, made.node, made.nb, made.s, made.edit)
    case Remove(vm, d, e, edit) =>
      LiveDir(v, c.Live(), d) && e in ListingOf(v.data, v.table[d], geo.blockSize) && !Dots(e.name)
      && e.ino as nat !in ahead && Unlinks(v, vm, v', geo, d, e, edit)
    case Put(i, inode', pos, d', taken) =>
      File(v, c, i) && i !in ahead && WritesRight(v, v', geo, i, v.table[i], inode', pos, d', taken)
    case PutPart(i, w) => File(v, c, i) && i !in ahead && PutsPart(v, v', geo, i, w)
    case Retry(i, w) => File(v, c, i) && i in ahead && Retries(v, v', geo, i, ahead[i], w)
    case Reload(i) => v' == v
    case Cut(i, inode', length) =>
      File(v, c, i) && i !in ahead && Truncates(v, v', geo, i, v.table[i], inode', length)
    case Fail => Leaked(v, v', geo)
  }

  /** A retry got its block: the inode was written. */
  ghost predicate Mends(v: View, w: Writing) {
    w.d != [] && v.blocks.free != {}
  }

  ghost function AheadAfter(v: View, ahead: Open, step: Step): Open {
    match step
    case PutPart(i, w) => ahead[i := w.inode']
    case Retry(i, w) => if Mends(v, w) then ahead - {i} else ahead[i := w.inode']
    case Reload(i) => ahead - {i}
    case _ => ahead
  }

  ghost function After(v: View, geo: Geometry, c: Catalog, step: Step): Catalog
    requires geo.blockSize > 0
  {
    match step
    case Create(d, e, _, edit) => if d in v.table then AfterCreate(c, d, v.table[d], geo.blockSize, e, edit) else c
    case Make(d, made) => if d in v.table then AfterMake(c, d, v.table[d], geo.blockSize, made.e, made.nb, made.edit) else c
    case Remove(_, d, e, edit) => if d in v.table then AfterUnlink(c, d, v.table[d], geo.blockSize, e, edit) else c
    case Put(i, inode', _, _, _) => if i in v.table then AfterChange(c, i, v.table[i], inode', geo.blockSize) else c
    case Cut(i, inode', _) => if i in v.table then AfterChange(c, i, v.table[i], inode', geo.blockSize) else c
    case Retry(i, w) => if i in v.table && Mends(v, w) then AfterChange(c, i, v.table[i], w.inode', geo.blockSize) else c
    case _ => c
  }

  /** What the step does to the naming tree. */
  ghost function TreeAfter(t: Tree, step: Step): Tree {
    match step
    case Create(d, e, _, _) => if d in t then TreeWith(t, d, e, false) else t
    case Make(d, made) => if d in t && d < U32_LIMIT then TreeWith(t, d, made.e, true) else t
    case Remove(_, d, e, _) => if d in t then TreeLess(t, d, e) else t
    case _ => t
  }

  /** Numbers taken and lost do no harm. */
  lemma {:induction false} LeakKeeps(v: View, v': View, geo: Geometry, c: Catalog)
    requires Ok(v, geo, c) && Leaked(v, v', geo)
    ensures Ok(v', geo, c) && TreeOf(v', geo.blockSize, c.Live()) == TreeOf(v, geo.blockSize, c.Live())
  {
    LeakSane(v, v', geo);
    LeakFrame(v, v', geo, c);
    hide *;
    OkParts(v, geo, c);
    Frame(v, v', geo.blockSize, c.owner, c.owner, {}, c.Live());
    NothingTouched(c.Live());
    OkFrom(v', geo, c);
  }

  lemma {:induction false} NothingTouched(live: set<nat>)
    ensures live - {} == live
  {
  }

  lemma {:induction false} LeakSane(v: View, v': View, geo: Geometry)
    requires Sane(v, geo) && Leaked(v, v', geo)
    ensures Sane(v', geo)
  {
  }

  lemma {:induction false} LeakFrame(v: View, v': View, geo: Geometry, c: Catalog)
    requires Leaked(v, v', geo)
    ensures Outside(v, v', c.owner, c.owner, {})
  {
  }

  /** What a write that ran out of space leaves on the device is clean as well, and its inode
      in memory is ahead. */
  lemma {:induction false} PartKeeps(v: View, v': View, geo: Geometry, c: Catalog, i: nat, w: Writing)
    requires Ok(v, geo, c) && File(v, c, i) && PutsPart(v, v', geo, i, w)
    ensures Ok(v', geo, c) && TreeOf(v', geo.blockSize, c.Live()) == TreeOf(v, geo.blockSize, c.Live())
    ensures v'.table == v.table && Ahead(v', i, w.inode', geo.blockSize)
  {
    var inode, bs := v.table[i], geo.blockSize;
    hide Ok, Sane, Settled, Carried, WriteSafe, Reached, DidWrite, ZeroFrom, Ahead, OwnBlocks, IsDir, TreeOf, HalfView, BlockSet, NBlocks;
    OkParts(v, geo, c);
    CleanSettled(v, geo, c, i);
    RunsAhead(v, v', geo, c, i, w.inode', w.pos, w.pos', w.d, w.taken, w.res);
    UnwrittenIs(v, v', geo, i, inode, w.inode', w.pos, w.pos', w.d, w.taken, w.res);
    PartOwn(v, geo, i, w.pos, w.d);
    HalfTable(v, inode, bs, w.pos, w.d);
    StillClean(v, v', geo, c, i);
  }

  lemma {:induction false} PartOwn(v: View, geo: Geometry, i: nat, pos: nat, d: seq<byte>)
    requires Sane(v, geo) && i in v.table && Settled(v, i, v.table[i], geo.blockSize) && pos <= v.table[i].size
    requires Carried(v.data, v.table[i], pos, |d|, geo.blockSize)
    ensures var v1 := HalfView(v, v.table[i], geo.blockSize, pos, d);
            && v1 == v.(data := v1.data) && v1.data.Keys == v.data.Keys
            && (forall b :: b in v1.data ==> |v1.data[b]| == geo.blockSize)
            && (forall b :: b in v.data && b !in BlockSet(v.table[i], geo.blockSize) ==> v1.data[b] == v.data[b])
  {
    var bs, inode := geo.blockSize, v.table[i];
    var fill := Reached(inode, pos, |d|, bs);
    if fill > 0 {
      InsideFrame(v, geo, inode, pos, d[..fill]);
    } else {
      SaneLengths(v, geo);
    }
  }

  lemma {:induction false} SaneLengths(v: View, geo: Geometry)
    requires Sane(v, geo)
    ensures forall b :: b in v.data ==> |v.data[b]| == geo.blockSize
  {
  }

  /** A harmless write on an inode that is ahead. */
  lemma {:induction false} RetryKeeps(v: View, v': View, geo: Geometry, c: Catalog, i: nat, inode: Inode, w: Writing)
    requires Ok(v, geo, c) && File(v, c, i) && Ahead(v, i, inode, geo.blockSize) && Retries(v, v', geo, i, inode, w)
    ensures var c' := if Mends(v, w) then AfterChange(c, i, v.table[i], w.inode', geo.blockSize) else c;
            && Ok(v', geo, c') && c'.Live() == c.Live() && TreeOf(v', geo.blockSize, c'.Live()) == TreeOf(v, geo.blockSize, c.Live())
    ensures forall j :: j in v.table && j != i ==> j in v'.table && v'.table[j] == v.table[j]
    ensures !Mends(v, w) ==> v'.table == v.table && Ahead(v', i, w.inode', geo.blockSize)
  {
    hide *;
    OkParts(v, geo, c);
    RetryParts(v, v', geo, c, i, inode, w);
    HarmlessCases(v.blocks.free, NBlocks(v.table[i], geo.blockSize), inode, w.pos, w.d, geo.blockSize);
    if Mends(v, w) {
      MendingTable(v, v', geo, i, inode, w);
      var c' := MendingKeeps(v, v', geo, c, i, inode, w.inode', w.pos, w.pos', w.d, w.taken, w.res);
      ChangedCatalog(c, i, v.table[i], w.inode', geo.blockSize);
    } else {
      UnwrittenKeeps(v, v', geo, c, i, inode, w.inode', w.pos, w.pos', w.d, w.taken, w.res);
      StaysAhead(v, v', geo, i, inode, w.inode', w.pos, w.pos', w.d, w.taken, w.res);
    }
  }

  lemma {:induction false} RetryParts(v: View, v': View, geo: Geometry, c: Catalog, i: nat, inode: Inode, w: Writing)
    requires geo.blockSize > 0 && File(v, c, i) && Retries(v, v', geo, i, inode, w)
    ensures i in c.Live() && i in v.table && !IsDir(v.table[i])
    ensures w.pos <= inode.size && Carried(v.data, inode, w.pos, |w.d|, geo.blockSize)
    ensures Harmless(v.blocks.free, NBlocks(v.table[i], geo.blockSize), inode, w.pos, |w.d|, geo.blockSize)
    ensures DidWrite(v, v', geo, i, inode, w.inode', w.pos, w.pos', w.d, w.taken, w.res)
    ensures Mends(v, w) <==> w.d != [] && v.blocks.free != {}
  {
    hide IsDir, Carried, Harmless, DidWrite;
  }

  lemma {:induction false} MendingTable(v: View, v': View, geo: Geometry, i: nat, inode: Inode, w: Writing)
    requires geo.blockSize > 0 && DidWrite(v, v', geo, i, inode, w.inode', w.pos, w.pos', w.d, w.taken, w.res)
    requires Reached(inode, w.pos, |w.d|, geo.blockSize) < |w.d| && v.blocks.free != {}
    ensures v'.table == v.table[i := w.inode']
  {
    hide HalfView, Reached, NextIndex;
    HalfTable(v, inode, geo.blockSize, w.pos, w.d);
  }

  /** What a step that concerns a name is. */
  lemma {:induction false} NameStep(v: View, v': View, geo: Geometry, c: Catalog, ahead: Open, step: Step, t: Tree)
    requires geo.blockSize > 0 && StepOk(v, v', geo, c, ahead, step) && (step.Create? || step.Make? || step.Remove?)
    ensures LiveDir(v, c.Live(), step.d) && step.d in v.table
    ensures AheadAfter(v, ahead, step) == ahead
    ensures step.Create? ==>
              && Unnamed(ListingOf(v.data, v.table[step.d], geo.blockSize), step.e.name)
              && Creates(v, v', geo, step.d, step.e, step.node, step.edit)
              && After(v, geo, c, step) == AfterCreate(c, step.d, v.table[step.d], geo.blockSize, step.e, step.edit)
              && (step.d in t ==> TreeAfter(t, step) == TreeWith(t, step.d, step.e, false))
    ensures step.Make? ==>
              var made := step.made;
              && Unnamed(ListingOf(v.data, v.table[step.d], geo.blockSize), made.e.name)
              && Makes(v, v', geo, step.d, made.e, made.node, made.nb, made.s, made.edit)
              && After(v, geo, c, step) == AfterMake(c, step.d, v.table[step.d], geo.blockSize, made.e, made.nb, made.edit)
              && (step.d in t && step.d < U32_LIMIT ==> TreeAfter(t, step) == TreeWith(t, step.d, made.e, true))
    ensures step.Remove? ==>
              && step.e in ListingOf(v.data, v.table[step.d], geo.blockSize) && !Dots(step.e.name) && step.e.ino as nat !in ahead
              && Unlinks(v, step.vm, v', geo, step.d, step.e, step.edit)
              && After(v, geo, c, step) == AfterUnlink(c, step.d, v.table[step.d], geo.blockSize, step.e, step.edit)
              && (step.d in t ==> TreeAfter(t, step) == TreeLess(t, step.d, step.e))
  {
    hide IsDir, Creates, Makes, Unlinks, ListingOf, Unnamed, Dots, AfterCreate, AfterMake, AfterUnlink, TreeWith, TreeLess;
  }

  lemma {:induction false} NameStepKeeps(v: View, v': View, geo: Geometry, c: Catalog, ahead: Open, step: Step)
    requires Ok(v, geo, c) && StepOk(v, v', geo, c, ahead, step)
    requires step.Create? || step.Make? || step.Remove?
    ensures Ok(v', geo, After(v, geo, c, step))
    ensures TreeOf(v', geo.blockSize, After(v, geo, c, step).Live()) == TreeAfter(TreeOf(v, geo.blockSize, c.Live()), step)
  {
    hide *;
    OkParts(v, geo, c);
    NameStep(v, v', geo, c, ahead, step, TreeOf(v, geo.blockSize, c.Live()));
    match step
    case Create(d, e, node, edit) => CreateKeeps(v, v', geo, c, d, e, node, edit);
    case Make(d, made) => MakeKeeps(v, v', geo, c, d, made.e, made.node, made.nb, made.s, made.edit);
    case Remove(vm, d, e, edit) => UnlinkKeeps(v, vm, v', geo, c, d, e, edit);
    case _ =>
  }

  lemma {:induction false} PutKeeps(v: View, v': View, geo: Geometry, c: Catalog, i: nat, inode': Inode, pos: nat, d: seq<byte>, taken: set<nat>)
    requires Ok(v, geo, c) && File(v, c, i) && WritesRight(v, v', geo, i, v.table[i], inode', pos, d, taken)
    ensures var c' := AfterChange(c, i, v.table[i], inode', geo.blockSize);
            Ok(v', geo, c') && TreeOf(v', geo.blockSize, c'.Live()) == TreeOf(v, geo.blockSize, c.Live())
  {
    hide Ok, TreeOf, Changes, IsDir, FileBytes, Patched, AfterChange;
    ChangeKeeps(v, v', geo, c, i, inode', v'.data, taken, {});
  }

  lemma {:induction false} CutKeeps(v: View, v': View, geo: Geometry, c: Catalog, i: nat, inode': Inode, length: nat)
    requires Ok(v, geo, c) && File(v, c, i) && Truncates(v, v', geo, i, v.table[i], inode', length)
    ensures var c' := AfterChange(c, i, v.table[i], inode', geo.blockSize);
            Ok(v', geo, c') && TreeOf(v', geo.blockSize, c'.Live()) == TreeOf(v, geo.blockSize, c.Live())
  {
    OkParts(v, geo, c);
    hide Ok, TreeOf, Changes, IsDir, FileBytes, Truncates, AfterChange;
    CutChanges(v, v', geo, i, v.table[i], inode', length);
    ChangeKeeps(v, v', geo, c, i, inode', v'.data, {}, BlocksFrom(v.table[i], CeilDiv(length, geo.blockSize), NBlocks(v.table[i], geo.blockSize)));
  }

  lemma {:induction false} FileStepKeeps(v: View, v': View, geo: Geometry, c: Catalog, ahead: Open, step: Step)
    requires Ok(v, geo, c) && AllAhead(v, geo, c, ahead) && StepOk(v, v', geo, c, ahead, step)
    requires !step.Create? && !step.Make? && !step.Remove?
    ensures Ok(v', geo, After(v, geo, c, step))
    ensures TreeOf(v', geo.blockSize, After(v, geo, c, step).Live()) == TreeAfter(TreeOf(v, geo.blockSize, c.Live()), step)
  {
    hide *;
    OkParts(v, geo, c);
    FileStep(v, v', geo, c, ahead, step, TreeOf(v, geo.blockSize, c.Live()));
    match step
    case Put(i, inode', pos, d', taken) => PutKeeps(v, v', geo, c, i, inode', pos, d', taken);
    case PutPart(i, w) => PartKeeps(v, v', geo, c, i, w);
    case Retry(i, w) =>
      AheadHere(v, geo, c, ahead, i);
      AheadMeans(v, geo, c, ahead, i);
      RetryKeeps(v, v', geo, c, i, ahead[i], w);
    case Cut(i, inode', length) => CutKeeps(v, v', geo, c, i, inode', length);
    case Fail => LeakKeeps(v, v', geo, c);
    case _ =>
  }

  lemma {:induction false} AheadMeans(v: View, geo: Geometry, c: Catalog, ahead: Open, i: nat)
    requires geo.blockSize > 0 && AheadAt(v, geo, c, ahead, i) && i in ahead
    ensures File(v, c, i) && Ahead(v, i, ahead[i], geo.blockSize)
  {
    hide File, Ahead;
  }

  /** What a step that concerns one file is. */
  lemma {:induction false} FileStep(v: View, v': View, geo: Geometry, c: Catalog, ahead: Open, step: Step, t: Tree)
    requires geo.blockSize > 0 && StepOk(v, v', geo, c, ahead, step) && !step.Create? && !step.Make? && !step.Remove?
    ensures TreeAfter(t, step) == t
    ensures step.Put? || step.PutPart? || step.Cut? ==> step.i !in ahead
    ensures !step.PutPart? && !step.Retry? && !step.Reload? ==> AheadAfter(v, ahead, step) == ahead
    ensures step.PutPart? ==> AheadAfter(v, ahead, step) == ahead[step.i := step.w.inode']
    ensures step.Reload? ==> AheadAfter(v, ahead, step) == ahead - {step.i}
    ensures step.Retry? ==> AheadAfter(v, ahead, step) == if Mends(v, step.w) then ahead - {step.i} else ahead[step.i := step.w.inode']
    ensures step.Put? ==> File(v, c, step.i) && WritesRight(v, v', geo, step.i, v.table[step.i], step.inode', step.pos, step.d', step.taken)
                          && After(v, geo, c, step) == AfterChange(c, step.i, v.table[step.i], step.inode', geo.blockSize)
    ensures step.PutPart? ==> File(v, c, step.i) && PutsPart(v, v', geo, step.i, step.w) && After(v, geo, c, step) == c
    ensures step.Retry? ==> File(v, c, step.i) && step.i in ahead && Retries(v, v', geo, step.i, ahead[step.i], step.w)
                            && After(v, geo, c, step) == if Mends(v, step.w) then AfterChange(c, step.i, v.table[step.i], step.w.inode', geo.blockSize) else c
    ensures step.Reload? ==> v' == v && After(v, geo, c, step) == c
    ensures step.Cut? ==> File(v, c, step.i) && Truncates(v, v', geo, step.i, v.table[step.i], step.inode', step.length)
                          && After(v, geo, c, step) == AfterChange(c, step.i, v.table[step.i], step.inode', geo.blockSize)
    ensures step.Fail? ==> Leaked(v, v', geo) && After(v, geo, c, step) == c
  {
    hide IsDir, WritesRight, Truncates, PutsPart, Retries, Leaked, AfterChange, Mends;
  }

  /** Every step keeps the volume clean. */
  lemma {:induction false} StepKeeps(v: View, v': View, geo: Geometry, c: Catalog, ahead: Open, step: Step)
    requires Ok(v, geo, c) && AllAhead(v, geo, c, ahead) && StepOk(v, v', geo, c, ahead, step)
    ensures Ok(v', geo, After(v, geo, c, step))
    ensures TreeOf(v', geo.blockSize, After(v, geo, c, step).Live()) == TreeAfter(TreeOf(v, geo.blockSize, c.Live()), step)
  {
    hide *;
    if step.Create? || step.Make? || step.Remove? {
      NameStepKeeps(v, v', geo, c, ahead, step);
    } else {
      FileStepKeeps(v, v', geo, c, ahead, step);
    }
  }

  lemma {:induction false} CutChanges(v: View, v': View, geo: Geometry, ino: nat, inode: Inode, inode': Inode, length: nat)
    requires geo.blockSize > 0 && Truncates(v, v', geo, ino, inode, inode', length)
    ensures NBlocks(inode, geo.blockSize) <= |inode.direct|
    ensures Changes(v, v', geo, ino, inode', v'.data, {}, BlocksFrom(inode, CeilDiv(length, geo.blockSize), NBlocks(inode, geo.blockSize)))
  {
  }

  // ---- the inodes that are ahead -----------------------------------------------------------

  ghost predicate AheadAt(v: View, geo: Geometry, c: Catalog, ahead: Open, i: nat)
    requires geo.blockSize > 0
  {
    i in ahead ==> File(v, c, i) && Ahead(v, i, ahead[i], geo.blockSize)
  }

  /** What the memory holds for them is no more than the device, with a larger size. */
  ghost predicate AllAhead(v: View, geo: Geometry, c: Catalog, ahead: Open)
    requires geo.blockSize > 0
  {
    forall i {:trigger AheadAt(v, geo, c, ahead, i)} :: AheadAt(v, geo, c, ahead, i)
  }

  /** A step leaves the inode of every file but the one it is about. */
  lemma {:induction false} StepTable(v: View, v': View, geo: Geometry, c: Catalog, ahead: Open, step: Step, j: nat)
    requires Ok(v, geo, c) && StepOk(v, v', geo, c, ahead, step) && File(v, c, j) && j in ahead && !step.Retry?
    ensures j in v'.table && v'.table[j] == v.table[j]
  {
    hide *;
    OkParts(v, geo, c);
    FileMeans(v, geo, c, j);
    if step.Create? || step.Make? || step.Remove? {
      NameStep(v, v', geo, c, ahead, step, map[]);
      DirMeans(v, c, step.d);
    } else {
      FileStep(v, v', geo, c, ahead, step, map[]);
    }
    match step
    case Create(d, e, node, edit) => CreateTable(v, v', geo, d, e, node, edit);
    case Make(d, made) => MakeTable(v, v', geo, d, made);
    case Remove(vm, d, e, edit) => UnlinkTable(v, vm, v', geo, d, e, edit);
    case Put(i, inode', pos, d', taken) =>
      FileMeans(v, geo, c, i);
      PutTable(v, v', geo, i, inode', pos, d', taken);
    case PutPart(i, w) =>
      FileMeans(v, geo, c, i);
      PartTable(v, v', geo, i, w);
    case Cut(i, inode', length) =>
      FileMeans(v, geo, c, i);
      CutTable(v, v', geo, i, inode', length);
    case Fail => LeakTable(v, v', geo);
    case _ =>
  }

  lemma {:induction false} FileMeans(v: View, geo: Geometry, c: Catalog, i: nat)
    requires Ok(v, geo, c) && File(v, c, i)
    ensures i in v.table && !IsDir(v.table[i]) && i in c.Live() && i !in v.inodes.free
  {
    LiveUsed(v, geo, c, i);
    hide Ok, IsDir;
  }

  lemma {:induction false} DirMeans(v: View, c: Catalog, d: nat)
    requires LiveDir(v, c.Live(), d)
    ensures d in v.table && IsDir(v.table[d])
  {
  }

  lemma {:induction false} CreateTable(v: View, v': View, geo: Geometry, d: nat, e: Entry, node: Inode, edit: Edit)
    requires geo.blockSize > 0 && Creates(v, v', geo, d, e, node, edit)
    ensures e.ino as nat in v.inodes.free
    ensures forall j :: j in v.table && j != d && j != e.ino as nat ==> j in v'.table && v'.table[j] == v.table[j]
  {
    hide EntersBy, EditInode, Moved;
  }

  lemma {:induction false} MakeTable(v: View, v': View, geo: Geometry, d: nat, made: Made)
    requires geo.blockSize > 0 && Makes(v, v', geo, d, made.e, made.node, made.nb, made.s, made.edit)
    ensures made.e.ino as nat in v.inodes.free
    ensures forall j :: j in v.table && j != d && j != made.e.ino as nat ==> j in v'.table && v'.table[j] == v.table[j]
  {
    hide EntersBy, EditInode, Moved;
  }

  lemma {:induction false} UnlinkTable(v: View, vm: View, v': View, geo: Geometry, d: nat, e: Entry, edit: Edit)
    requires geo.blockSize > 0 && Unlinks(v, vm, v', geo, d, e, edit)
    ensures forall j :: j in v.table && j != d && j != e.ino as nat ==> j in v'.table && v'.table[j] == v.table[j]
  {
    hide LeavesBy, EditInode, Moved, Bare, Emptied;
  }

  lemma {:induction false} PutTable(v: View, v': View, geo: Geometry, i: nat, inode': Inode, pos: nat, d: seq<byte>, taken: set<nat>)
    requires geo.blockSize > 0 && i in v.table && WritesRight(v, v', geo, i, v.table[i], inode', pos, d, taken)
    ensures v'.table == v.table[i := inode']
  {
    hide FileBytes, Patched, Changes;
    ChangedTable(v, v', geo, i, inode', taken, {});
  }

  lemma {:induction false} CutTable(v: View, v': View, geo: Geometry, i: nat, inode': Inode, length: nat)
    requires geo.blockSize > 0 && i in v.table && Truncates(v, v', geo, i, v.table[i], inode', length)
    ensures v'.table == v.table[i := inode']
  {
  }

  lemma {:induction false} LeakTable(v: View, v': View, geo: Geometry)
    requires Leaked(v, v', geo)
    ensures v'.table == v.table
  {
  }

  lemma {:induction false} PartTable(v: View, v': View, geo: Geometry, i: nat, w: Writing)
    requires geo.blockSize > 0 && i in v.table && PutsPart(v, v', geo, i, w)
    ensures v'.table == v.table
  {
    hide HalfView, Reached, Carried, WriteSafe, NBlocks;
    HalfTable(v, v.table[i], geo.blockSize, w.pos, w.d);
  }

  lemma {:induction false} LiveAfterStep(v: View, v': View, geo: Geometry, c: Catalog, ahead: Open, step: Step, j: nat)
    requires geo.blockSize > 0 && StepOk(v, v', geo, c, ahead, step) && j in c.Live() && j in ahead
    ensures j in After(v, geo, c, step).Live()
  {
    hide Creates, Makes, Unlinks, WritesRight, Truncates, PutsPart, Retries, Leaked, File, LiveDir, ListingOf, Unnamed;
  }

  /** An inode that stays ahead while something else is done. */
  lemma {:induction false} AheadStays(v: View, v': View, geo: Geometry, c': Catalog, i: nat, inode: Inode)
    requires geo.blockSize > 0 && Ahead(v, i, inode, geo.blockSize) && Ok(v', geo, c') && i in c'.Live()
    requires i in v.table && i in v'.table && v'.table[i] == v.table[i]
    ensures Ahead(v', i, inode, geo.blockSize)
  {
    CleanFile(v', geo, c', i);
    hide Ok, OwnBlocks;
  }

  lemma {:induction false} AheadIs(v: View, geo: Geometry, c: Catalog, ahead: Open, i: nat)
    requires geo.blockSize > 0 && (i in ahead ==> File(v, c, i) && Ahead(v, i, ahead[i], geo.blockSize))
    ensures AheadAt(v, geo, c, ahead, i)
  {
    hide File, Ahead;
  }

  lemma {:induction false} FileAgain(v: View, v': View, c: Catalog, c': Catalog, j: nat)
    requires File(v, c, j) && j in c'.Live() && j in v'.table && v'.table[j] == v.table[j]
    ensures File(v', c', j)
  {
    hide IsDir;
  }

  /** An inode that the step is not about. */
  lemma {:induction false} OtherAhead(v: View, v': View, geo: Geometry, c: Catalog, ahead: Open, step: Step, j: nat)
    requires Ok(v, geo, c) && AllAhead(v, geo, c, ahead) && StepOk(v, v', geo, c, ahead, step)
    requires j in ahead && j in v'.table && j in v.table && v'.table[j] == v.table[j]
    ensures File(v', After(v, geo, c, step), j) && Ahead(v', j, ahead[j], geo.blockSize)
  {
    hide *;
    OkParts(v, geo, c);
    AheadHere(v, geo, c, ahead, j);
    AheadMeans(v, geo, c, ahead, j);
    FileMeans(v, geo, c, j);
    StepKeeps(v, v', geo, c, ahead, step);
    LiveAfterStep(v, v', geo, c, ahead, step, j);
    AheadStays(v, v', geo, After(v, geo, c, step), j, ahead[j]);
    FileAgain(v, v', c, After(v, geo, c, step), j);
  }

  lemma {:induction false} AheadKept(v: View, v': View, geo: Geometry, c: Catalog, ahead: Open, step: Step, j: nat)
    requires Ok(v, geo, c) && AllAhead(v, geo, c, ahead) && StepOk(v, v', geo, c, ahead, step)
    ensures AheadAt(v', geo, After(v, geo, c, step), AheadAfter(v, ahead, step), j)
  {
    hide *;
    OkParts(v, geo, c);
    if step.Create? || step.Make? || step.Remove? {
      NameStep(v, v', geo, c, ahead, step, map[]);
    } else {
      FileStep(v, v', geo, c, ahead, step, map[]);
    }
    AheadHere(v, geo, c, ahead, j);
    if j in ahead {
      AheadMeans(v, geo, c, ahead, j);
      FileMeans(v, geo, c, j);
    }
    if step.PutPart? && step.i == j {
      PartKeeps(v, v', geo, c, j, step.w);
      FileMeans(v, geo, c, j);
      FileAgain(v, v', c, c, j);
    } else if step.Retry? {
      RetryAhead(v, v', geo, c, ahead, step, j);
    } else if j in ahead {
      StepTable(v, v', geo, c, ahead, step, j);
      OtherAhead(v, v', geo, c, ahead, step, j);
    }
    AheadIs(v', geo, After(v, geo, c, step), AheadAfter(v, ahead, step), j);
  }

  lemma {:induction false} RetryAhead(v: View, v': View, geo: Geometry, c: Catalog, ahead: Open, step: Step, j: nat)
    requires Ok(v, geo, c) && AllAhead(v, geo, c, ahead) && StepOk(v, v', geo, c, ahead, step) && step.Retry?
    ensures var ahead' := AheadAfter(v, ahead, step);
            j in ahead' ==> File(v', After(v, geo, c, step), j) && Ahead(v', j, ahead'[j], geo.blockSize)
  {
    hide *;
    OkParts(v, geo, c);
    FileStep(v, v', geo, c, ahead, step, map[]);
    var i := step.i;
    AheadHere(v, geo, c, ahead, i);
    AheadMeans(v, geo, c, ahead, i);
    FileMeans(v, geo, c, i);
    RetryKeeps(v, v', geo, c, i, ahead[i], step.w);
    if j == i {
      if !Mends(v, step.w) {
        FileAgain(v, v', c, c, i);
      }
    } else if j in ahead {
      AheadHere(v, geo, c, ahead, j);
      AheadMeans(v, geo, c, ahead, j);
      FileMeans(v, geo, c, j);
      OtherAhead(v, v', geo, c, ahead, step, j);
    }
  }

  lemma {:induction false} AheadHere(v: View, geo: Geometry, c: Catalog, ahead: Open, i: nat)
    requires geo.blockSize > 0 && AllAhead(v, geo, c, ahead)
    ensures AheadAt(v, geo, c, ahead, i)
  {
  }

  /** Every step keeps the inodes in memory as they should be. */
  lemma {:induction false} StepKeepsAhead(v: View, v': View, geo: Geometry, c: Catalog, ahead: Open, step: Step)
    requires Ok(v, geo, c) && AllAhead(v, geo, c, ahead) && StepOk(v, v', geo, c, ahead, step)
    ensures AllAhead(v', geo, After(v, geo, c, step), AheadAfter(v, ahead, step))
  {
    hide Ok, StepOk, After, AheadAfter, AheadAt;
    OkParts(v, geo, c);
    forall j ensures AheadAt(v', geo, After(v, geo, c, step), AheadAfter(v, ahead, step), j) {
      AheadKept(v, v', geo, c, ahead, step, j);
    }
  }

  /** vs[0] to vs[|steps|] is a run of these steps from catalog c. */
  ghost predicate Run(vs: seq<View>, geo: Geometry, c: Catalog, ahead: Open, steps: seq<Step>)
    requires geo.blockSize > 0
    decreases |steps|
  {
    && |vs| == |steps| + 1
    && (steps == [] ||
        (StepOk(vs[0], vs[1], geo, c, ahead, steps[0])
         && Run(vs[1..], geo, After(vs[0], geo, c, steps[0]), AheadAfter(vs[0], ahead, steps[0]), steps[1..])))
  }

  ghost function AfterRun(vs: seq<View>, geo: Geometry, c: Catalog, steps: seq<Step>): Catalog
    requires geo.blockSize > 0
    decreases |steps|
  {
    if steps == [] || vs == [] then c else AfterRun(vs[1..], geo, After(vs[0], geo, c, steps[0]), steps[1..])
  }

  /** A run from a clean volume ends in a clean volume, whatever its steps. */
  lemma {:induction false} RunKeeps(vs: seq<View>, geo: Geometry, c: Catalog, ahead: Open, steps: seq<Step>)
    requires geo.blockSize > 0 && Run(vs, geo, c, ahead, steps) && Ok(vs[0], geo, c) && AllAhead(vs[0], geo, c, ahead)
    ensures Ok(vs[|vs| - 1], geo, AfterRun(vs, geo, c, steps))
    decreases |steps|
  {
    hide Ok, StepOk, After, AllAhead, AheadAfter;
    if steps != [] {
      StepKeeps(vs[0], vs[1], geo, c, ahead, steps[0]);
      StepKeepsAhead(vs[0], vs[1], geo, c, ahead, steps[0]);
      RunKeeps(vs[1..], geo, After(vs[0], geo, c, steps[0]), AheadAfter(vs[0], ahead, steps[0]), steps[1..]);
    }
  }

  // ---- a clean volume meets the operations' preconditions --------------------------------

  lemma {:induction false} CleanDir(v: View, geo: Geometry, c: Catalog, d: nat)
    requires Ok(v, geo, c) && LiveDir(v, c.Live(), d)
    ensures d !in v.inodes.free && DirShape(v.data, v.table[d], geo.blockSize)
    ensures forall k :: 0 <= k < NBlocks(v.table[d], geo.blockSize) ==> v.table[d].direct[k] !in v.blocks.free
    ensures forall e :: e in ListingOf(v.data, v.table[d], geo.blockSize) ==> e.ino as nat in v.table
  {
    LiveUsed(v, geo, c, d);
    forall k | 0 <= k < NBlocks(v.table[d], geo.blockSize) ensures v.table[d].direct[k] !in v.blocks.free {
      assert OwnedAt(v, c.owner, v.table[d].direct[k], d, k);
    }
    forall e | e in ListingOf(v.data, v.table[d], geo.blockSize) ensures e.ino as nat in v.table {
      NamesLive(v, geo, c, d, e);
    }
  }

  lemma {:induction false} ListedOnce(v: View, geo: Geometry, c: Catalog, d: nat, e: Entry)
    requires Ok(v, geo, c) && LiveDir(v, c.Live(), d) && e in ListingOf(v.data, v.table[d], geo.blockSize)
    ensures var es := ListingOf(v.data, v.table[d], geo.blockSize); Lookup(es, e.name) == e.ino && !Unnamed(es, e.name)
  {
    LiveUsed(v, geo, c, d);
    var ds := Parts(v.data, v.table[d], geo.blockSize);
    FlatInUse(v.data, v.table[d], geo.blockSize, |ds|);
    LookupIsMap(Flat(ds, |ds|), e.name);
  }

  /** unlink of a name that is listed can be called, and then either refuses because the
      directory is not bare or removes the name: -EIO is out. */
  lemma {:induction false} CleanRemovable(v: View, geo: Geometry, c: Catalog, d: nat, e: Entry)
    requires Ok(v, geo, c) && LiveDir(v, c.Live(), d) && e in ListingOf(v.data, v.table[d], geo.blockSize) && !Dots(e.name)
    requires e.ino as nat in v.table && NBlocks(v.table[e.ino as nat], geo.blockSize) <= DIRECT && e.ino != d
    ensures Removable(v, geo, d, v.table[d], e.ino as nat, v.table[e.ino as nat])
    ensures var es := ListingOf(v.data, v.table[d], geo.blockSize); Lookup(es, e.name) == e.ino && !Unnamed(es, e.name)
  {
    var x := e.ino as nat;
    ListedOnce(v, geo, c, d, e);
    NameHome(v, geo, c, d, e);
    CleanDir(v, geo, c, d);
    CleanFile(v, geo, c, x);
    LiveUsed(v, geo, c, x);
    LiveUsed(v, geo, c, d);
    forall k | 0 <= k < NBlocks(v.table[d], geo.blockSize)
      ensures v.table[d].direct[k] as nat !in BlockSet(v.table[x], geo.blockSize)
    {
      forall l | 0 <= l < Span(v.table[x], geo.blockSize) ensures v.table[x].direct[l] != v.table[d].direct[k] {
        BlocksExclusive(v, geo, c, d, x, k, l);
      }
    }
  }
}
