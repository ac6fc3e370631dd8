/** The driver's calls on a clean volume: each is a step of a run, and so leaves the volume
    clean. The catalog and the inodes that are ahead of the device are what is known of the
    volume's state between calls. */
module Calls {
  import opened Arith
  import opened Bytes
  import opened Numbering
  import opened Layout
  import opened Inodes
  import opened State
  import opened Volumes
  import opened Dirents
  import opened DirBlocks
  import opened Names
  import opened Effects
  import opened Files
  import opened Fsck
  import opened FsckDirs
  import opened FsckMake
  import opened FsckFiles
  import opened Vnodes
  import opened VnodeDirs
  import opened VnodeFind
  import opened VnodeOps
  import opened VnodeUnlink
  import opened VnodeWrite
  import opened VnodeTrunc
  import opened Aheads
  import opened Runs

  ghost predicate Clean(fs: Volume, c: Catalog, ahead: Open)
    reads fs
  {
    fs.Valid() && fs.geo.blockSize > 0 && Ok(fs.view, fs.geo, c) && AllAhead(fs.view, fs.geo, c, ahead)
  }

  /** The step was taken, and what it leaves is clean. */
  ghost predicate Stepped(v: View, v': View, geo: Geometry, c: Catalog, ahead: Open, step: Step)
  {
    && geo.blockSize > 0 && StepOk(v, v', geo, c, ahead, step)
    && Ok(v', geo, After(v, geo, c, step)) && AllAhead(v', geo, After(v, geo, c, step), AheadAfter(v, ahead, step))
  }

  lemma {:induction false} ItSteps(v: View, v': View, geo: Geometry, c: Catalog, ahead: Open, step: Step)
    requires geo.blockSize > 0 && Ok(v, geo, c) && AllAhead(v, geo, c, ahead) && StepOk(v, v', geo, c, ahead, step)
    ensures Stepped(v, v', geo, c, ahead, step)
  {
    hide Ok, AllAhead, StepOk, After, AheadAfter;
    StepKeeps(v, v', geo, c, ahead, step);
    StepKeepsAhead(v, v', geo, c, ahead, step);
  }

  lemma {:induction false} NothingDone(v: View, geo: Geometry, c: Catalog, ahead: Open)
    requires Ok(v, geo, c) && geo.blockSize > 0 && AllAhead(v, geo, c, ahead)
    ensures Stepped(v, v, geo, c, ahead, Fail)
  {
    hide *;
    OkParts(v, geo, c);
    NothingLeaked(v, geo);
    FailSteps(v, v, geo, c, ahead);
  }

  lemma {:induction false} FailSteps(v: View, v': View, geo: Geometry, c: Catalog, ahead: Open)
    requires Ok(v, geo, c) && geo.blockSize > 0 && AllAhead(v, geo, c, ahead) && Leaked(v, v', geo)
    ensures Stepped(v, v', geo, c, ahead, Fail)
  {
    hide Ok, AllAhead, Leaked;
    ItSteps(v, v', geo, c, ahead, Fail);
  }

  lemma {:induction false} CreateStepsOn(v: View, v': View, geo: Geometry, c: Catalog, ahead: Open, d: nat, e: Entry, node: Inode, edit: Edit)
    requires Ok(v, geo, c) && geo.blockSize > 0 && AllAhead(v, geo, c, ahead)
    requires LiveDir(v, c.Live(), d) && Unnamed(ListingOf(v.data, v.table[d], geo.blockSize), e.name) && Creates(v, v', geo, d, e, node, edit)
    ensures Stepped(v, v', geo, c, ahead, Create(d, e, node, edit))
  {
    hide Ok, AllAhead, Creates, Unnamed, ListingOf, IsDir;
    ItSteps(v, v', geo, c, ahead, Create(d, e, node, edit));
  }

  /** What the layer above makes sure of before creat and mkdir: a directory in use that does not
      have the name. And the driver can only add twelve blocks to a directory. */
  ghost predicate NewName(v: View, geo: Geometry, c: Catalog, d: nat, name: Name, reserved: nat) {
    && geo.blockSize > 0 && LiveDir(v, c.Live(), d) && Unnamed(ListingOf(v.data, v.table[d], geo.blockSize), name)
    && 1 <= |name| < 0x100 && reserved >= HEADER
    && (NBlocks(v.table[d], geo.blockSize) == DIRECT ==> TakesName(v.data, v.table[d], geo.blockSize, |name|, reserved))
  }

  lemma {:induction false} NewNameMeans(v: View, geo: Geometry, c: Catalog, d: nat, name: Name, reserved: nat)
    requires Ok(v, geo, c) && NewName(v, geo, c, d, name, reserved)
    ensures geo.blockSize > 0 && LiveDir(v, c.Live(), d) && d in v.table && Unnamed(ListingOf(v.data, v.table[d], geo.blockSize), name)
    ensures 1 <= |name| < 0x100 && reserved >= HEADER && d !in v.inodes.free && DirShape(v.data, v.table[d], geo.blockSize)
    ensures NBlocks(v.table[d], geo.blockSize) == DIRECT ==>
              !NoRoomBefore(v.data, v.table[d], geo.blockSize, name, reserved, DIRECT)
  {
    hide Ok, Unnamed, ListingOf, IsDir, TakesName, DirShape, NBlocks;
    CleanDir(v, geo, c, d);
    TakesIsRoom(v.data, v.table[d], geo.blockSize, name, reserved);
  }

  /** creat through the vnode of a directory. */
  method CreatStep(fs: Volume, at: Vnode, name: Name, mode: nat, uid: u16, gid: u16, rest: seq<byte>, reserved: nat,
                   ghost c: Catalog, ghost ahead: Open)
    returns (res: int, vn: Vnode?, ghost step: Step)
    requires at.Synced(fs) && NewName(fs.view, fs.geo, c, at.ino, name, reserved) && |rest| + 128 == fs.geo.inodeSize
    requires Clean(fs, c, ahead)
    modifies fs, at
    ensures fs.Valid() && Stepped(old(fs.view), fs.view, fs.geo, c, ahead, step)
    ensures if res != 0 then step.Fail?
            else vn != null && step.Create? && step.d == at.ino as nat && step.e == Entry(vn.ino, name) && step.node == vn.inode
  {
    hide Ok, AllAhead, Creates, Unnamed, ListingOf, IsDir, Leaked, TakesName, DirShape, NoRoomBefore, Encode, FilledIn, NewName, Stepped;
    ghost var v, edit := fs.view, Drop(0);
    NewNameMeans(v, fs.geo, c, at.ino, name, reserved);
    res, vn, edit := Creat(fs, at, name, mode, uid, gid, rest, reserved);
    if res == 0 {
      step := Create(at.ino, Entry(vn.ino, name), vn.inode, edit);
      CreateStepsOn(v, fs.view, fs.geo, c, ahead, at.ino, Entry(vn.ino, name), vn.inode, edit);
    } else {
      step := Fail;
      FailSteps(v, fs.view, fs.geo, c, ahead);
    }
  }

  lemma {:induction false} MakeStepsOn(v: View, v': View, geo: Geometry, c: Catalog, ahead: Open, d: nat, made: Made)
    requires Ok(v, geo, c) && geo.blockSize > 0 && AllAhead(v, geo, c, ahead)
    requires LiveDir(v, c.Live(), d) && Unnamed(ListingOf(v.data, v.table[d], geo.blockSize), made.e.name)
    requires Makes(v, v', geo, d, made.e, made.node, made.nb, made.s, made.edit)
    ensures Stepped(v, v', geo, c, ahead, Make(d, made))
  {
    hide Ok, AllAhead, Makes, Unnamed, ListingOf, IsDir;
    ItSteps(v, v', geo, c, ahead, Make(d, made));
  }

  /** mkdir. */
  method MkdirStep(fs: Volume, at: Vnode, name: Name, mode: nat, rest: seq<byte>, reserved: nat, ghost c: Catalog, ghost ahead: Open)
    returns (res: int, ghost step: Step)
    requires at.Synced(fs) && NewName(fs.view, fs.geo, c, at.ino, name, reserved) && |rest| + 128 == fs.geo.inodeSize
    requires Clean(fs, c, ahead)
    modifies fs, at
    ensures fs.Valid() && Stepped(old(fs.view), fs.view, fs.geo, c, ahead, step)
    ensures if res != 0 then step.Fail? else step.Make? && step.d == at.ino as nat && step.made.e.name == name
  {
    hide Ok, AllAhead, Makes, Unnamed, ListingOf, IsDir, Leaked, TakesName, DirShape, NoRoomBefore, Encode, FilledIn, NewName, Stepped, FirstFits;
    ghost var v := fs.view;
    NewNameMeans(v, fs.geo, c, at.ino, name, reserved);
    ghost var made;
    res, made := Mkdir(fs, at, name, mode, rest, reserved);
    if res == 0 {
      step := Make(at.ino, made);
      MakeStepsOn(v, fs.view, fs.geo, c, ahead, at.ino, made);
    } else {
      step := Fail;
      FailSteps(v, fs.view, fs.geo, c, ahead);
    }
  }

  /** The directory lists e, another inode than its own, and nobody has written ahead of it. */
  ghost predicate OldName(v: View, geo: Geometry, c: Catalog, ahead: Open, d: nat, e: Entry) {
    && geo.blockSize > 0 && LiveDir(v, c.Live(), d) && e in ListingOf(v.data, v.table[d], geo.blockSize) && !Dots(e.name)
    && e.ino != d && e.ino as nat !in ahead && e.ino as nat in v.table && NBlocks(v.table[e.ino as nat], geo.blockSize) <= DIRECT
  }

  lemma {:induction false} OldNameMeans(v: View, geo: Geometry, c: Catalog, ahead: Open, d: nat, e: Entry)
    requires Ok(v, geo, c) && OldName(v, geo, c, ahead, d, e)
    ensures geo.blockSize > 0 && d in v.table && e.ino as nat in v.table && Removable(v, geo, d, v.table[d], e.ino as nat, v.table[e.ino as nat])
    ensures var es := ListingOf(v.data, v.table[d], geo.blockSize); Lookup(es, e.name) == e.ino && !Unnamed(es, e.name)
  {
    hide Ok, Unnamed, ListingOf, IsDir, Removable, NBlocks, Lookup, Dots;
    CleanRemovable(v, geo, c, d, e);
  }

  lemma {:induction false} RemoveStepsOn(v: View, vm: View, v': View, geo: Geometry, c: Catalog, ahead: Open, d: nat, e: Entry, edit: Edit)
    requires Ok(v, geo, c) && geo.blockSize > 0 && AllAhead(v, geo, c, ahead) && OldName(v, geo, c, ahead, d, e)
    requires Unlinks(v, vm, v', geo, d, e, edit)
    ensures Stepped(v, v', geo, c, ahead, Remove(vm, d, e, edit))
  {
    hide Ok, AllAhead, Unlinks, Unnamed, ListingOf, IsDir, NBlocks, Dots;
    ItSteps(v, v', geo, c, ahead, Remove(vm, d, e, edit));
  }

  /** unlink of a name the directory lists: it goes, or the call refuses and nothing changes. */
  method UnlinkStep(fs: Volume, at: Vnode, vn: Vnode, name: Name, ghost c: Catalog, ghost ahead: Open) returns (res: int, ghost step: Step)
    requires at != vn && at.Synced(fs) && vn.Synced(fs) && OldName(fs.view, fs.geo, c, ahead, at.ino, Entry(vn.ino, name))
    requires Clean(fs, c, ahead)
    modifies fs, at, vn
    ensures fs.Valid() && Stepped(old(fs.view), fs.view, fs.geo, c, ahead, step)
    ensures if res == EISDIR then step.Fail? && fs.view == old(fs.view)
            else res == 0 && step.Remove? && step.d == at.ino as nat && step.e == Entry(vn.ino, name)
  {
    hide Ok, AllAhead, Unlinks, Unnamed, ListingOf, IsDir, Leaked, Removable, Bare, Lookup, OldName, Stepped, Vacates;
    ghost var v, vm, edit := fs.view, fs.view, Drop(0);
    OldNameMeans(v, fs.geo, c, ahead, at.ino, Entry(vn.ino, name));
    res, vm, edit := Unlink(fs, at, vn, name);
    if res == 0 {
      step := Remove(vm, at.ino, Entry(vn.ino, name), edit);
      RemoveStepsOn(v, vm, fs.view, fs.geo, c, ahead, at.ino, Entry(vn.ino, name), edit);
    } else {
      step := Fail;
      NothingDone(v, fs.geo, c, ahead);
    }
  }

  // ---- files -----------------------------------------------------------------------------

  /** A file in use of at most twelve blocks whose inode in memory is the one on the device. */
  ghost predicate InStep(v: View, geo: Geometry, c: Catalog, ahead: Open, i: nat) {
    geo.blockSize > 0 && File(v, c, i) && i !in ahead && NBlocks(v.table[i], geo.blockSize) <= DIRECT
  }

  /** A write the driver carries through and supports. */
  ghost predicate MayWrite(v: View, geo: Geometry, inode: Inode, pos: nat, count: nat) {
    && geo.blockSize > 0 && pos <= inode.size
    && Carried(v.data, inode, pos, count, geo.blockSize) && WriteSafe(inode.size, pos, count, geo.blockSize)
  }

  lemma {:induction false} InStepMeans(v: View, geo: Geometry, c: Catalog, ahead: Open, i: nat)
    requires Ok(v, geo, c) && InStep(v, geo, c, ahead, i)
    ensures geo.blockSize > 0 && Sane(v, geo) && i in v.table && Settled(v, i, v.table[i], geo.blockSize) && InodeOk(v.table[i], geo.inodeSize)
  {
    hide Ok, Sane, OwnBlocks, IsDir, NBlocks, InodeOk;
    OkParts(v, geo, c);
    CleanFile(v, geo, c, i);
    SaneInode(v, geo, i);
  }

  lemma {:induction false} SaneInode(v: View, geo: Geometry, i: nat)
    requires Sane(v, geo) && i in v.table
    ensures InodeOk(v.table[i], geo.inodeSize)
  {
  }

  /** What the write was: whole, or cut short for want of space. */
  lemma {:induction false} WriteIs(v: View, v': View, geo: Geometry, c: Catalog, ahead: Open, i: nat, w: Writing)
    requires Ok(v, geo, c) && AllAhead(v, geo, c, ahead) && InStep(v, geo, c, ahead, i) && MayWrite(v, geo, v.table[i], w.pos, |w.d|)
    requires DidWrite(v, v', geo, i, v.table[i], w.inode', w.pos, w.pos', w.d, w.taken, w.res)
    requires VnodeWrite.Written(v, v', geo, i, v.table[i], w.inode', w.pos, w.pos', w.d, w.taken, w.res)
    ensures w.res == |w.d| ==> Stepped(v, v', geo, c, ahead, Put(i, w.inode', w.pos, w.d, w.taken))
    ensures w.res != |w.d| ==> Stepped(v, v', geo, c, ahead, PutPart(i, w))
  {
    hide Ok, AllAhead, IsDir, NBlocks, Sane, OwnBlocks, Carried, WriteSafe, DidWrite, WritesRight, HalfWritten, Fills, Reached, SizeAfter, CeilDiv;
    InStepMeans(v, geo, c, ahead, i);
    SettledKnown(v, geo, i, v.table[i], w.pos, |w.d|);
    if w.res == |w.d| {
      ItSteps(v, v', geo, c, ahead, Put(i, w.inode', w.pos, w.d, w.taken));
    } else {
      ItSteps(v, v', geo, c, ahead, PutPart(i, w));
    }
  }

  /** write through a vnode that agrees with the device. If it runs out of space the inode in
      memory is ahead of the device from then on. */
  method WriteStep(fs: Volume, of: Ofile, d: seq<byte>, ghost c: Catalog, ghost ahead: Open) returns (res: int, ghost step: Step)
    requires of.vnode.Synced(fs) && InStep(fs.view, fs.geo, c, ahead, of.vnode.ino) && MayWrite(fs.view, fs.geo, of.vnode.inode, of.pos, |d|)
    requires Clean(fs, c, ahead)
    modifies fs, of, of.vnode
    ensures fs.Valid() && Stepped(old(fs.view), fs.view, fs.geo, c, ahead, step)
    ensures if res == |d| then step.Put? && step.i == of.vnode.ino as nat && step.inode' == of.vnode.inode && step.d' == d
            else step.PutPart? && step.i == of.vnode.ino as nat && step.w.inode' == of.vnode.inode && step.w.d == d && step.w.res == res
  {
    hide Ok, AllAhead, InStep, MayWrite, Stepped, DidWrite, VnodeWrite.Written, Settled, Carried, Sane, InodeOk;
    ghost var v, inode, pos := fs.view, of.vnode.inode, of.pos;
    InStepMeans(v, fs.geo, c, ahead, of.vnode.ino);
    MayWriteMeans(v, fs.geo, inode, pos, |d|);
    ghost var taken;
    res, taken := Write(fs, of, d);
    ghost var w := Writing(of.vnode.inode, pos, of.pos, d, taken, res);
    WriteIs(v, fs.view, fs.geo, c, ahead, of.vnode.ino, w);
    step := if res == |d| then Put(of.vnode.ino, w.inode', pos, d, taken) else PutPart(of.vnode.ino, w);
  }

  lemma {:induction false} MayWriteMeans(v: View, geo: Geometry, inode: Inode, pos: nat, count: nat)
    requires MayWrite(v, geo, inode, pos, count)
    ensures geo.blockSize > 0 && pos <= inode.size && Carried(v.data, inode, pos, count, geo.blockSize)
  {
    hide Carried, WriteSafe;
  }

  /** A file whose inode in memory is ahead, and a write through it that does no harm. */
  ghost predicate MayRetry(v: View, geo: Geometry, c: Catalog, ahead: Open, i: nat, inode: Inode, pos: nat, count: nat) {
    && geo.blockSize > 0 && File(v, c, i) && i in ahead && inode == ahead[i] && pos <= inode.size
    && Carried(v.data, inode, pos, count, geo.blockSize)
    && Harmless(v.blocks.free, NBlocks(v.table[i], geo.blockSize), inode, pos, count, geo.blockSize)
  }

  lemma {:induction false} MayRetryMeans(v: View, geo: Geometry, c: Catalog, ahead: Open, i: nat, inode: Inode, pos: nat, count: nat)
    requires Ok(v, geo, c) && AllAhead(v, geo, c, ahead) && MayRetry(v, geo, c, ahead, i, inode, pos, count)
    ensures geo.blockSize > 0 && i in v.table && pos <= inode.size && Carried(v.data, inode, pos, count, geo.blockSize)
    ensures InodeOk(inode, geo.inodeSize)
  {
    hide Ok, AllAhead, AheadAt, Carried, Harmless, IsDir, NBlocks, Sane, OwnBlocks, ZeroFrom;
    OkParts(v, geo, c);
    AheadHere(v, geo, c, ahead, i);
    AheadMeans(v, geo, c, ahead, i);
    SaneInode(v, geo, i);
  }

  lemma {:induction false} RetryStepsOn(v: View, v': View, geo: Geometry, c: Catalog, ahead: Open, i: nat, inode: Inode, w: Writing)
    requires Ok(v, geo, c) && AllAhead(v, geo, c, ahead) && MayRetry(v, geo, c, ahead, i, inode, w.pos, |w.d|)
    requires DidWrite(v, v', geo, i, inode, w.inode', w.pos, w.pos', w.d, w.taken, w.res)
    ensures Stepped(v, v', geo, c, ahead, Retry(i, w))
  {
    hide Ok, AllAhead, Carried, Harmless, IsDir, NBlocks, DidWrite;
    ItSteps(v, v', geo, c, ahead, Retry(i, w));
  }

  /** A further write through a vnode that is ahead. */
  method RetryStep(fs: Volume, of: Ofile, d: seq<byte>, ghost c: Catalog, ghost ahead: Open) returns (res: int, ghost step: Step)
    requires MayRetry(fs.view, fs.geo, c, ahead, of.vnode.ino, of.vnode.inode, of.pos, |d|)
    requires Clean(fs, c, ahead)
    modifies fs, of, of.vnode
    ensures fs.Valid() && Stepped(old(fs.view), fs.view, fs.geo, c, ahead, step)
    ensures step.Retry? && step.i == of.vnode.ino as nat && step.w.inode' == of.vnode.inode && step.w.d == d && step.w.res == res
  {
    hide Ok, AllAhead, MayRetry, Stepped, DidWrite, VnodeWrite.Written, Settled, Carried, InodeOk;
    ghost var v, inode, pos := fs.view, of.vnode.inode, of.pos;
    MayRetryMeans(v, fs.geo, c, ahead, of.vnode.ino, inode, pos, |d|);
    ghost var taken;
    res, taken := Write(fs, of, d);
    ghost var w := Writing(of.vnode.inode, pos, of.pos, d, taken, res);
    RetryStepsOn(v, fs.view, fs.geo, c, ahead, of.vnode.ino, inode, w);
    step := Retry(of.vnode.ino, w);
  }

  lemma {:induction false} CutStepsOn(v: View, v': View, geo: Geometry, c: Catalog, ahead: Open, i: nat, inode': Inode, length: nat, res: int)
    requires Ok(v, geo, c) && AllAhead(v, geo, c, ahead) && InStep(v, geo, c, ahead, i)
    requires TruncatesAsAsked(v, v', geo, i, v.table[i], inode', length, res)
    ensures res == 0 && length != v.table[i].size as nat ==> Stepped(v, v', geo, c, ahead, Cut(i, inode', length))
    ensures res != 0 || length == v.table[i].size as nat ==> Stepped(v, v', geo, c, ahead, Fail)
  {
    hide Ok, AllAhead, IsDir, NBlocks, Truncates, CeilDiv;
    if res == 0 && length != v.table[i].size {
      ItSteps(v, v', geo, c, ahead, Cut(i, inode', length));
    } else {
      NothingDone(v, geo, c, ahead);
    }
  }

  /** truncate to a length that fits. */
  method TruncateStep(fs: Volume, of: Ofile, length: nat, ghost c: Catalog, ghost ahead: Open) returns (res: int, ghost step: Step)
    requires of.vnode.Synced(fs) && InStep(fs.view, fs.geo, c, ahead, of.vnode.ino)
    requires length < SIZE_T && fs.geo.blockSize > 0 && Fits(of.vnode.inode, fs.geo.blockSize, length)
    requires Clean(fs, c, ahead)
    modifies fs, of.vnode
    ensures fs.Valid() && Stepped(old(fs.view), fs.view, fs.geo, c, ahead, step)
    ensures if res == 0 && length != old(of.vnode.inode).size as nat
            then step.Cut? && step.i == of.vnode.ino as nat && step.inode' == of.vnode.inode && step.length == length
            else step.Fail? && fs.view == old(fs.view)
  {
    hide Ok, AllAhead, InStep, Stepped, Fits, DidTruncate, Sane, InodeOk, NBlocks;
    ghost var v := fs.view;
    InStepMeans(v, fs.geo, c, ahead, of.vnode.ino);
    res := Truncate(fs, of, length);
    CutStepsOn(v, fs.view, fs.geo, c, ahead, of.vnode.ino, of.vnode.inode, length, res);
    step := if res == 0 && length != v.table[of.vnode.ino as nat].size as nat then Cut(of.vnode.ino, of.vnode.inode, length) else Fail;
  }
}
