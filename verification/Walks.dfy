/** Path resolution without a cache: one component after the other, asking the file system
    for each name. A position is the chain of inodes from the root down to it. */
module Walks {
  import opened Dirents
  import opened DirBlocks

  /** What the file system's find answers: for each directory, names and inodes. */
  datatype Fs = Fs(dirs: map<nat, map<Name, nat>>)

  type Position = p: seq<nat> | p != [] witness [0]

  datatype Found = Found(at: Position) | NotFound

  function Last(at: Position): nat {
    at[|at| - 1]
  }

  function Up(at: Position): Position {
    if |at| > 1 then at[..|at| - 1] else at
  }

  function Down(fs: Fs, at: Position, name: Name): Found {
    if Last(at) in fs.dirs && name in fs.dirs[Last(at)] then Found(at + [fs.dirs[Last(at)][name]]) else NotFound
  }

  /** The driver's resolution: "." stays, ".." goes up; at the root any number of ".." stay,
      but then even "." is looked up like a name. */
  function Walk(fs: Fs, at: Position, es: seq<Name>): Found
    decreases |es|, 1
  {
    if es == [] then Found(at)
    else if es[0] == DOT then Walk(fs, at, es[1..])
    else if es[0] == DOTDOT then (if |at| > 1 then Walk(fs, Up(at), es[1..]) else AtTop(fs, at, es[1..]))
    else Into(fs, at, es)
  }

  /** After ".." at the root. */
  function AtTop(fs: Fs, at: Position, es: seq<Name>): Found
    decreases |es|, 1
  {
    if es == [] then Found(at)
    else if es[0] == DOTDOT then AtTop(fs, at, es[1..])
    else Into(fs, at, es)
  }

  function Into(fs: Fs, at: Position, es: seq<Name>): Found
    requires es != []
    decreases |es|, 0
  {
    match Down(fs, at, es[0])
    case Found(to) => Walk(fs, to, es[1..])
    case NotFound => NotFound
  }

  /** The textbook resolution: "." is always the directory itself, ".." always its parent,
      and the root is its own parent. */
  function Resolve(fs: Fs, at: Position, es: seq<Name>): Found
    decreases |es|
  {
    if es == [] then Found(at)
    else if es[0] == DOT then Resolve(fs, at, es[1..])
    else if es[0] == DOTDOT then Resolve(fs, Up(at), es[1..])
    else match Down(fs, at, es[0])
         case Found(to) => Resolve(fs, to, es[1..])
         case NotFound => NotFound
  }

  /** From `depth` names below the root, a "." follows a ".." that has reached the root. */
  predicate DotAfterTop(depth: nat, es: seq<Name>)
    decreases |es|
  {
    if es == [] then false
    else if es[0] == DOT then DotAfterTop(depth, es[1..])
    else if es[0] == DOTDOT then (if depth > 0 then DotAfterTop(depth - 1, es[1..]) else DotNext(es[1..]))
    else DotAfterTop(depth + 1, es[1..])
  }

  predicate DotNext(es: seq<Name>)
    decreases |es|
  {
    if es == [] then false
    else if es[0] == DOTDOT then DotNext(es[1..])
    else es[0] == DOT || DotAfterTop(1, es[1..])
  }

  lemma {:induction false} WalkIsResolve(fs: Fs, at: Position, es: seq<Name>)
    requires !DotAfterTop(|at| - 1, es)
    ensures Walk(fs, at, es) == Resolve(fs, at, es)
    decreases |es|, 1
  {
    if es != [] {
      if es[0] == DOT {
        WalkIsResolve(fs, at, es[1..]);
      } else if es[0] == DOTDOT {
        if |at| > 1 {
          WalkIsResolve(fs, Up(at), es[1..]);
        } else {
          TopIsResolve(fs, at, es[1..]);
        }
      } else if Down(fs, at, es[0]).Found? {
        WalkIsResolve(fs, Down(fs, at, es[0]).at, es[1..]);
      }
    }
  }

  lemma {:induction false} TopIsResolve(fs: Fs, at: Position, es: seq<Name>)
    requires |at| == 1 && !DotNext(es)
    ensures AtTop(fs, at, es) == Resolve(fs, at, es)
    decreases |es|, 0
  {
    if es != [] {
      if es[0] == DOTDOT {
        TopIsResolve(fs, at, es[1..]);
      } else if Down(fs, at, es[0]).Found? {
        WalkIsResolve(fs, Down(fs, at, es[0]).at, es[1..]);
      }
    }
  }

  /** A file system with one directory, in which each of these names but "." leads back to
      it. */
  function Loop(names: seq<Name>): Fs {
    Fs(map[0 := map n | n in names && n != DOT :: 0])
  }

  function Zeros(n: nat): (at: Position)
    ensures |at| == n + 1 && forall i :: 0 <= i < |at| ==> at[i] == 0
  {
    seq(n + 1, _ => 0)
  }

  lemma {:induction false} WalkDiffers(names: seq<Name>, depth: nat, es: seq<Name>)
    requires DotAfterTop(depth, es) && forall e :: e in es ==> e in names
    ensures Walk(Loop(names), Zeros(depth), es).NotFound? && Resolve(Loop(names), Zeros(depth), es).Found?
    decreases |es|, 1
  {
    var fs, at := Loop(names), Zeros(depth);
    var rest := es[1..];
    assert forall e :: e in rest ==> e in es;
    if es[0] == DOT {
      WalkDiffers(names, depth, rest);
    } else if es[0] == DOTDOT {
      if depth > 0 {
        assert Up(at) == Zeros(depth - 1);
        WalkDiffers(names, depth - 1, rest);
      } else {
        assert Up(at) == at;
        TopDiffers(names, rest);
      }
    } else {
      assert es[0] in es;
      assert at + [0] == Zeros(depth + 1);
      assert Down(fs, at, es[0]) == Found(Zeros(depth + 1));
      WalkDiffers(names, depth + 1, rest);
    }
  }

  lemma {:induction false} TopDiffers(names: seq<Name>, es: seq<Name>)
    requires DotNext(es) && forall e :: e in es ==> e in names
    ensures AtTop(Loop(names), Zeros(0), es).NotFound? && Resolve(Loop(names), Zeros(0), es).Found?
    decreases |es|, 0
  {
    var fs, at := Loop(names), Zeros(0);
    var rest := es[1..];
    assert forall e :: e in rest ==> e in es;
    if es[0] == DOTDOT {
      assert Up(at) == at;
      TopDiffers(names, rest);
    } else if es[0] == DOT {
      ResolveLoop(names, 0, rest);
    } else {
      assert es[0] in es;
      assert at + [0] == Zeros(1);
      assert Down(fs, at, es[0]) == Found(Zeros(1));
      WalkDiffers(names, 1, rest);
    }
  }

  lemma {:induction false} ResolveLoop(names: seq<Name>, depth: nat, es: seq<Name>)
    requires forall e :: e in es ==> e in names
    ensures Resolve(Loop(names), Zeros(depth), es).Found?
    decreases |es|
  {
    if es != [] {
      var fs, at := Loop(names), Zeros(depth);
      var rest := es[1..];
      assert forall e :: e in rest ==> e in es;
      if es[0] == DOT {
        ResolveLoop(names, depth, rest);
      } else if es[0] == DOTDOT {
        assert Up(at) == Zeros(if depth > 0 then depth - 1 else 0);
        ResolveLoop(names, if depth > 0 then depth - 1 else 0, rest);
      } else {
        assert es[0] in es;
        assert at + [0] == Zeros(depth + 1);
        ResolveLoop(names, depth + 1, rest);
      }
    }
  }

  /** The driver resolves a path the textbook way on every file system exactly if no "."
      comes after a ".." at the root. */
  lemma {:induction false} WalkExact(depth: nat, es: seq<Name>)
    ensures !DotAfterTop(depth, es) <==>
              forall fs: Fs, at: Position :: |at| == depth + 1 ==> Walk(fs, at, es) == Resolve(fs, at, es)
  {
    if DotAfterTop(depth, es) {
      WalkDiffers(es, depth, es);
      assert Walk(Loop(es), Zeros(depth), es) != Resolve(Loop(es), Zeros(depth), es);
    } else {
      forall fs: Fs, at: Position | |at| == depth + 1 ensures Walk(fs, at, es) == Resolve(fs, at, es) {
        WalkIsResolve(fs, at, es);
      }
    }
  }

  // ---- a path in two parts ---------------------------------------------------------------

  /** From `depth` names below the root, the walk ends with a ".." at the root. */
  predicate EndsAtTop(depth: nat, es: seq<Name>)
    decreases |es|
  {
    if es == [] then false
    else if es[0] == DOT then EndsAtTop(depth, es[1..])
    else if es[0] == DOTDOT then (if depth > 0 then EndsAtTop(depth - 1, es[1..]) else TopAtEnd(es[1..]))
    else EndsAtTop(depth + 1, es[1..])
  }

  predicate TopAtEnd(es: seq<Name>)
    decreases |es|
  {
    es == [] || if es[0] == DOTDOT then TopAtEnd(es[1..]) else EndsAtTop(1, es[1..])
  }

  /** Where the walk goes on with the rest of the path. */
  function Onward(fs: Fs, found: Found, top: bool, rest: seq<Name>): Found {
    match found
    case NotFound => NotFound
    case Found(to) => if top then AtTop(fs, to, rest) else Walk(fs, to, rest)
  }

  lemma {:induction false} WalkOn(fs: Fs, at: Position, es: seq<Name>, rest: seq<Name>)
    ensures Walk(fs, at, es + rest) == Onward(fs, Walk(fs, at, es), EndsAtTop(|at| - 1, es), rest)
    ensures EndsAtTop(|at| - 1, es) && Walk(fs, at, es).Found? ==> |Walk(fs, at, es).at| == 1
    decreases |es|, 1
  {
    var all := es + rest;
    if es == [] {
      assert all == rest;
    } else {
      var es' := es[1..];
      assert all[0] == es[0] && all[1..] == es' + rest;
      if es[0] == DOT {
        WalkOn(fs, at, es', rest);
      } else if es[0] == DOTDOT {
        if |at| > 1 {
          WalkOn(fs, Up(at), es', rest);
        } else {
          TopOn(fs, at, es', rest);
        }
      } else if Down(fs, at, es[0]).Found? {
        WalkOn(fs, Down(fs, at, es[0]).at, es', rest);
      }
    }
  }

  lemma {:induction false} TopOn(fs: Fs, at: Position, es: seq<Name>, rest: seq<Name>)
    requires |at| == 1
    ensures AtTop(fs, at, es + rest) == Onward(fs, AtTop(fs, at, es), TopAtEnd(es), rest)
    ensures TopAtEnd(es) && AtTop(fs, at, es).Found? ==> |AtTop(fs, at, es).at| == 1
    decreases |es|, 0
  {
    var all := es + rest;
    if es == [] {
      assert all == rest;
    } else {
      var es' := es[1..];
      assert all[0] == es[0] && all[1..] == es' + rest;
      if es[0] == DOTDOT {
        TopOn(fs, at, es', rest);
      } else if Down(fs, at, es[0]).Found? {
        WalkOn(fs, Down(fs, at, es[0]).at, es', rest);
      }
    }
  }

  /** Going on from where the first part of a path led is walking the whole path, unless the
      first part ends with a ".." at the root and the second begins with ".". */
  lemma {:induction false} WalkConcat(fs: Fs, at: Position, es: seq<Name>, rest: seq<Name>)
    requires !EndsAtTop(|at| - 1, es) || rest == [] || rest[0] != DOT
    ensures Walk(fs, at, es + rest) == Onward(fs, Walk(fs, at, es), false, rest)
  {
    WalkOn(fs, at, es, rest);
  }

  lemma {:induction false} OneMore(fs: Fs, at: Position, top: bool, b: Name)
    requires top ==> |at| == 1
    ensures Onward(fs, Found(at), top, [b]) ==
            if b == DOTDOT then Found(Up(at)) else if b == DOT && !top then Found(at) else Down(fs, at, b)
  {
    assert [b][1..] == [];
    assert forall q: Position :: Walk(fs, q, []) == AtTop(fs, q, []) == Found(q);
    assert Into(fs, at, [b]) == Down(fs, at, b);
    if top {
      assert AtTop(fs, at, [b]) == if b == DOTDOT then Found(at) else Into(fs, at, [b]);
    } else {
      assert Walk(fs, at, [b]) == if b == DOT then Found(at) else if b == DOTDOT then Found(Up(at)) else Into(fs, at, [b]);
    }
  }

  /** A file system with one directory, in which each of these names leads back to it. */
  function Cycle(names: seq<Name>): Fs {
    Fs(map[0 := map n | n in names :: 0])
  }

  lemma {:induction false} WalkCycle(names: seq<Name>, depth: nat, es: seq<Name>)
    requires forall e :: e in es ==> e in names
    ensures Walk(Cycle(names), Zeros(depth), es).Found?
    decreases |es|, 1
  {
    if es != [] {
      var at := Zeros(depth);
      assert es[0] in es && forall e :: e in es[1..] ==> e in es;
      if es[0] == DOT {
        WalkCycle(names, depth, es[1..]);
      } else if es[0] == DOTDOT {
        if depth > 0 {
          assert Up(at) == Zeros(depth - 1);
          WalkCycle(names, depth - 1, es[1..]);
        } else {
          TopCycle(names, es[1..]);
        }
      } else {
        assert Down(Cycle(names), at, es[0]).at == Zeros(depth + 1);
        WalkCycle(names, depth + 1, es[1..]);
      }
    }
  }

  lemma {:induction false} TopCycle(names: seq<Name>, es: seq<Name>)
    requires forall e :: e in es ==> e in names
    ensures AtTop(Cycle(names), Zeros(0), es).Found?
    decreases |es|, 0
  {
    if es != [] {
      assert es[0] in es && forall e :: e in es[1..] ==> e in es;
      if es[0] == DOTDOT {
        TopCycle(names, es[1..]);
      } else {
        assert Down(Cycle(names), Zeros(0), es[0]).at == Zeros(1);
        WalkCycle(names, 1, es[1..]);
      }
    }
  }

  /** A first part of a path can be followed by every second one, on every file system, exactly
      if it does not end with a ".." at the root. */
  lemma {:induction false} ConcatExact(depth: nat, es: seq<Name>)
    ensures !EndsAtTop(depth, es) <==>
              forall fs: Fs, at: Position, rest: seq<Name> :: |at| == depth + 1 ==>
                Walk(fs, at, es + rest) == Onward(fs, Walk(fs, at, es), false, rest)
  {
    if EndsAtTop(depth, es) {
      var fs, at := Cycle(es + [DOT]), Zeros(depth);
      WalkCycle(es + [DOT], depth, es);
      WalkOn(fs, at, es, [DOT]);
      OneMore(fs, Walk(fs, at, es).at, true, DOT);
      OneMore(fs, Walk(fs, at, es).at, false, DOT);
    } else {
      forall fs: Fs, at: Position, rest: seq<Name> | |at| == depth + 1
        ensures Walk(fs, at, es + rest) == Onward(fs, Walk(fs, at, es), false, rest)
      {
        WalkConcat(fs, at, es, rest);
      }
    }
  }

  /** For example "..", "." at the root, of a file system without entries "." and "..". */
  lemma {:induction false} ConcatFails()
    ensures var fs, at := Fs(map[0 := map[]]), [0];
            && Walk(fs, at, [DOTDOT]) == Found(at) == Walk(fs, at, [DOT])
            && Walk(fs, at, [DOTDOT] + [DOT]) == NotFound
  {
    var fs, at := Fs(map[0 := map[]]), [0];
    WalkOn(fs, at, [], [DOTDOT]);
    OneMore(fs, at, false, DOTDOT);
    OneMore(fs, at, false, DOT);
    WalkOn(fs, at, [DOTDOT], [DOT]);
    OneMore(fs, at, true, DOT);
  }

  // ---- creating at the end of a path ---------------------------------------------------

  /** If a directory is found but not the name in it, the directory does not have the name. */
  lemma {:induction false} WalkMiss(fs: Fs, at: Position, es: seq<Name>, b: Name)
    requires Walk(fs, at, es).Found? && Walk(fs, at, es + [b]).NotFound?
    ensures Down(fs, Walk(fs, at, es).at, b).NotFound?
  {
    WalkOn(fs, at, es, [b]);
    OneMore(fs, Walk(fs, at, es).at, EndsAtTop(|at| - 1, es), b);
  }

  /** Every name of fs is in fs', for the same inode. */
  ghost predicate Extends(fs: Fs, fs': Fs) {
    forall d, name :: d in fs.dirs && name in fs.dirs[d] ==> d in fs'.dirs && name in fs'.dirs[d] && fs'.dirs[d][name] == fs.dirs[d][name]
  }

  lemma {:induction false} WalkExtends(fs: Fs, fs': Fs, at: Position, es: seq<Name>)
    requires Extends(fs, fs')
    ensures Walk(fs, at, es).Found? ==> Walk(fs', at, es) == Walk(fs, at, es)
    ensures AtTop(fs, at, es).Found? ==> AtTop(fs', at, es) == AtTop(fs, at, es)
    decreases |es|
  {
    if es != [] {
      WalkExtends(fs, fs', at, es[1..]);
      WalkExtends(fs, fs', Up(at), es[1..]);
      if Down(fs, at, es[0]).Found? {
        WalkExtends(fs, fs', Down(fs, at, es[0]).at, es[1..]);
      }
    }
  }

  /** If a directory was found but not the name in it, and it gets the name, then the whole
      path is found. */
  lemma {:induction false} WalkNew(fs: Fs, fs': Fs, at: Position, es: seq<Name>, b: Name, ino: nat)
    requires Walk(fs, at, es).Found? && Walk(fs, at, es + [b]).NotFound?
    requires Extends(fs, fs') && Down(fs', Walk(fs, at, es).at, b) == Found(Walk(fs, at, es).at + [ino])
    ensures Walk(fs', at, es + [b]) == Found(Walk(fs, at, es).at + [ino])
  {
    var to, top := Walk(fs, at, es).at, EndsAtTop(|at| - 1, es);
    hide Walk, AtTop, Onward;
    WalkOn(fs, at, es, [b]);
    WalkOn(fs', at, es, [b]);
    WalkExtends(fs, fs', at, es);
    OneMore(fs, to, top, b);
    OneMore(fs', to, top, b);
  }

  /** If fs' lost the last name of a path, the path is not found there. */
  lemma {:induction false} WalkGone(fs: Fs, fs': Fs, at: Position, es: seq<Name>, b: Name)
    requires Extends(fs', fs) && b != DOT && b != DOTDOT
    requires Walk(fs, at, es).Found? ==> Down(fs', Walk(fs, at, es).at, b).NotFound?
    ensures Walk(fs', at, es + [b]).NotFound?
  {
    hide Walk, AtTop, Onward, Down, Extends;
    WalkOn(fs', at, es, [b]);
    WalkExtends(fs', fs, at, es);
    if Walk(fs', at, es).Found? {
      OneMore(fs', Walk(fs', at, es).at, EndsAtTop(|at| - 1, es), b);
    } else {
      NothingOnward(fs', EndsAtTop(|at| - 1, es), [b]);
    }
  }

  lemma {:induction false} NothingOnward(fs: Fs, top: bool, rest: seq<Name>)
    ensures Onward(fs, NotFound, top, rest) == NotFound
  {
  }

  // ---- on a volume -------------------------------------------------------------------------

  /** The root directory holds "." and it stands for the root, as on every ext2 volume. Then
      looking "." up at the root finds the root again, one level further down. */
  ghost predicate DotAtRoot(fs: Fs, root: nat) {
    root in fs.dirs && DOT in fs.dirs[root] && fs.dirs[root][DOT] == root
  }

  /** p is q, or q seen through the root's ".". */
  ghost predicate Alias(p: Position, q: Position) {
    p == q || p == [q[0]] + q
  }

  /** From `depth` names below the root, seen through the root's "." if `alias`: does the
      walk end up seeing it so? */
  predicate EndsAlias(depth: nat, alias: bool, es: seq<Name>)
    decreases |es|
  {
    if es == [] then alias
    else if es[0] == DOT then EndsAlias(depth, alias, es[1..])
    else if es[0] == DOTDOT then
      (if depth > 0 then EndsAlias(depth - 1, alias, es[1..])
       else if alias then EndsAlias(0, false, es[1..])
       else TopEndsAlias(es[1..]))
    else EndsAlias(depth + 1, alias, es[1..])
  }

  /** After ".." at the root. */
  predicate TopEndsAlias(es: seq<Name>)
    decreases |es|
  {
    if es == [] then false
    else if es[0] == DOTDOT then TopEndsAlias(es[1..])
    else if es[0] == DOT then EndsAlias(0, true, es[1..])
    else EndsAlias(1, false, es[1..])
  }

  /** The two walks found the same, up to an alias; `alias` says whether it is one. */
  ghost predicate Agree(root: nat, w: Found, r: Found, alias: bool) {
    match r
    case NotFound => w == NotFound
    case Found(q) => w.Found? && q[0] == root && w.at == if alias then [root] + q else q
  }

  lemma {:induction false} WalkAgrees(fs: Fs, root: nat, q: Position, alias: bool, es: seq<Name>)
    requires DotAtRoot(fs, root) && q[0] == root
    ensures Agree(root, Walk(fs, if alias then [root] + q else q, es), Resolve(fs, q, es), EndsAlias(|q| - 1, alias, es))
    decreases |es|, 1
  {
    var p: Position := if alias then [root] + q else q;
    assert Last(p) == Last(q);
    if es != [] {
      var rest := es[1..];
      if es[0] == DOT {
        WalkAgrees(fs, root, q, alias, rest);
      } else if es[0] == DOTDOT {
        if |q| > 1 {
          assert Up(p) == if alias then [root] + Up(q) else Up(q);
          WalkAgrees(fs, root, Up(q), alias, rest);
        } else if alias {
          assert Up(p) == q;
          WalkAgrees(fs, root, q, false, rest);
        } else {
          TopAgrees(fs, root, q, rest);
        }
      } else {
        NameAgrees(fs, root, q, alias, es);
      }
    }
  }

  lemma {:induction false} NameAgrees(fs: Fs, root: nat, q: Position, alias: bool, es: seq<Name>)
    requires DotAtRoot(fs, root) && q[0] == root && es != [] && es[0] != DOT && es[0] != DOTDOT
    ensures Agree(root, Walk(fs, if alias then [root] + q else q, es), Resolve(fs, q, es), EndsAlias(|q|, alias, es[1..]))
    decreases |es|, 0
  {
    var p: Position := if alias then [root] + q else q;
    assert Last(p) == Last(q);
    match Down(fs, q, es[0])
    case NotFound =>
    case Found(to) =>
      assert Down(fs, p, es[0]) == Found(p + [Last(to)]);
      assert p + [Last(to)] == if alias then [root] + to else to;
      WalkAgrees(fs, root, to, alias, es[1..]);
  }

  lemma {:induction false} TopAgrees(fs: Fs, root: nat, q: Position, es: seq<Name>)
    requires DotAtRoot(fs, root) && q == [root]
    ensures Agree(root, AtTop(fs, q, es), Resolve(fs, q, es), TopEndsAlias(es))
    decreases |es|, 0
  {
    if es != [] {
      var rest := es[1..];
      if es[0] == DOTDOT {
        TopAgrees(fs, root, q, rest);
      } else if es[0] == DOT {
        assert Down(fs, q, DOT) == Found([root] + q);
        WalkAgrees(fs, root, q, true, rest);
      } else {
        match Down(fs, q, es[0])
        case NotFound =>
        case Found(to) => WalkAgrees(fs, root, to, false, rest);
      }
    }
  }

  lemma {:induction false} ResolveConcat(fs: Fs, at: Position, es: seq<Name>, rest: seq<Name>)
    ensures Resolve(fs, at, es + rest) ==
            match Resolve(fs, at, es) case NotFound => NotFound case Found(to) => Resolve(fs, to, rest)
    decreases |es|
  {
    var all := es + rest;
    if es == [] {
      assert all == rest;
    } else {
      assert all[0] == es[0] && all[1..] == es[1..] + rest;
      if es[0] == DOT {
        ResolveConcat(fs, at, es[1..], rest);
      } else if es[0] == DOTDOT {
        ResolveConcat(fs, Up(at), es[1..], rest);
      } else if Down(fs, at, es[0]).Found? {
        ResolveConcat(fs, Down(fs, at, es[0]).at, es[1..], rest);
      }
    }
  }

  /** Two lookups end at the same inode, or both find nothing. */
  ghost predicate SameEnd(a: Found, b: Found) {
    (a.Found? <==> b.Found?) && (a.Found? ==> Last(a.at) == Last(b.at))
  }

  /** On a volume every path can be walked in two parts: the same inode is found. */
  lemma {:induction false} ConcatOnVolume(fs: Fs, at: Position, es: seq<Name>, rest: seq<Name>)
    requires DotAtRoot(fs, at[0])
    ensures SameEnd(Walk(fs, at, es + rest), Onward(fs, Walk(fs, at, es), false, rest))
  {
    WalkAgrees(fs, at[0], at, false, es);
    WalkAgrees(fs, at[0], at, false, es + rest);
    ResolveConcat(fs, at, es, rest);
    if Resolve(fs, at, es).Found? {
      WalkAgrees(fs, at[0], Resolve(fs, at, es).at, EndsAlias(|at| - 1, false, es), rest);
    }
  }

  /** On a volume the driver's resolution and the textbook's agree on every path: both find
      something or neither does, and it is the same inode. They disagree on the position
      exactly if something is found and the walk ends seeing it through the root's ".". */
  lemma {:induction false} WalkOnVolume(fs: Fs, at: Position, es: seq<Name>)
    requires DotAtRoot(fs, at[0])
    ensures var w, r := Walk(fs, at, es), Resolve(fs, at, es);
            && (w.Found? <==> r.Found?) && (w.Found? ==> Last(w.at) == Last(r.at) && Alias(w.at, r.at))
            && (w == r <==> r.NotFound? || !EndsAlias(|at| - 1, false, es))
  {
    WalkAgrees(fs, at[0], at, false, es);
  }
}
