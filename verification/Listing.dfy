/** A directory's entries in block order, and what an edit of one of its blocks does to
    them. */
module Listings {
  import opened Dirents
  import opened DirBlocks

  /** The entries of the first n blocks, one after the other. */
  function Flat(ds: seq<seq<Entry>>, n: nat): seq<Entry>
    requires n <= |ds|
  {
    if n == 0 then [] else Flat(ds, n - 1) + ds[n - 1]
  }

  function Listing(ds: seq<seq<Entry>>): seq<Entry> {
    Flat(ds, |ds|)
  }

  /** No two entries have the same name. */
  ghost predicate Unique(es: seq<Entry>) {
    forall i, j :: 0 <= i < j < |es| ==> es[i].name != es[j].name
  }

  ghost predicate Inserted(es: seq<Entry>, es': seq<Entry>, p: nat, e: Entry) {
    p <= |es| && es' == es[..p] + [e] + es[p..]
  }

  ghost predicate Removed(es: seq<Entry>, es': seq<Entry>, p: nat) {
    p < |es| && es' == es[..p] + es[p + 1..]
  }

  ghost function Content(es: seq<Entry>): set<Entry> {
    set e | e in es
  }

  lemma {:induction false} FlatFrame(ds: seq<seq<Entry>>, ds': seq<seq<Entry>>, n: nat)
    requires n <= |ds| && n <= |ds'| && forall i :: 0 <= i < n ==> ds[i] == ds'[i]
    ensures Flat(ds, n) == Flat(ds', n)
  {
    if n > 0 {
      FlatFrame(ds, ds', n - 1);
    }
  }

  // ---- an insertion into one block inserts into the listing ----------------------------

  lemma {:induction false} InsertInLast(front: seq<Entry>, b: seq<Entry>, b': seq<Entry>, j: nat, e: Entry)
    requires Inserted(b, b', j, e)
    ensures Inserted(front + b, front + b', |front| + j, e)
  {
  }

  lemma {:induction false} InsertBefore(es: seq<Entry>, es': seq<Entry>, p: nat, e: Entry, b: seq<Entry>)
    requires Inserted(es, es', p, e)
    ensures Inserted(es + b, es' + b, p, e)
  {
  }

  lemma {:induction false} InsertFlat(ds: seq<seq<Entry>>, ds': seq<seq<Entry>>, k: nat, j: nat, e: Entry, n: nat)
    returns (p: nat)
    requires k < n <= |ds| == |ds'| && Inserted(ds[k], ds'[k], j, e)
    requires forall i :: 0 <= i < |ds| && i != k ==> ds'[i] == ds[i]
    ensures p >= j && Inserted(Flat(ds, n), Flat(ds', n), p, e)
  {
    hide Inserted;
    if n == k + 1 {
      FlatFrame(ds, ds', k);
      InsertInLast(Flat(ds, k), ds[k], ds'[k], j, e);
      p := |Flat(ds, k)| + j;
    } else {
      p := InsertFlat(ds, ds', k, j, e, n - 1);
      InsertBefore(Flat(ds, n - 1), Flat(ds', n - 1), p, e, ds[n - 1]);
    }
  }

  /** A new last block with one entry. */
  lemma {:induction false} AppendFlat(ds: seq<seq<Entry>>, ds': seq<seq<Entry>>, e: Entry)
    requires |ds'| == |ds| + 1 && ds'[|ds|] == [e] && forall i :: 0 <= i < |ds| ==> ds'[i] == ds[i]
    ensures Inserted(Listing(ds), Listing(ds'), |Listing(ds)|, e)
  {
    FlatFrame(ds, ds', |ds|);
    var es := Listing(ds);
    assert es[..|es|] == es && es[|es|..] == [];
  }

  // ---- a removal from one block removes from the listing -------------------------------

  lemma {:induction false} RemoveInLast(front: seq<Entry>, b: seq<Entry>, b': seq<Entry>, j: nat)
    requires Removed(b, b', j)
    ensures Removed(front + b, front + b', |front| + j)
  {
  }

  lemma {:induction false} RemoveBefore(es: seq<Entry>, es': seq<Entry>, p: nat, b: seq<Entry>)
    requires Removed(es, es', p)
    ensures Removed(es + b, es' + b, p) && (es + b)[p] == es[p]
  {
  }

  lemma {:induction false} RemoveFlat(ds: seq<seq<Entry>>, ds': seq<seq<Entry>>, k: nat, j: nat, n: nat)
    returns (p: nat)
    requires k < n <= |ds| == |ds'| && Removed(ds[k], ds'[k], j)
    requires forall i :: 0 <= i < |ds| && i != k ==> ds'[i] == ds[i]
    ensures Removed(Flat(ds, n), Flat(ds', n), p) && Flat(ds, n)[p] == ds[k][j]
  {
    assert j < |ds[k]|;
    if n == k + 1 {
      FlatFrame(ds, ds', k);
      RemoveInLast(Flat(ds, k), ds[k], ds'[k], j);
      p := |Flat(ds, k)| + j;
    } else {
      p := RemoveFlat(ds, ds', k, j, n - 1);
      assert p < |Flat(ds, n - 1)|;
      hide Removed;
      RemoveBefore(Flat(ds, n - 1), Flat(ds', n - 1), p, ds[n - 1]);
    }
  }

  ghost predicate Without<T>(xs: seq<T>, xs': seq<T>, k: nat) {
    && k < |xs| == |xs'| + 1
    && forall i {:trigger xs'[i]} :: 0 <= i < |xs'| ==> xs'[i] == xs[if i < k then i else i + 1]
  }

  /** A block with one entry is dropped and the blocks after it move down. */
  lemma {:induction false} DropFlat(ds: seq<seq<Entry>>, ds': seq<seq<Entry>>, k: nat, n: nat)
    returns (p: nat)
    requires k < n <= |ds| && |ds[k]| == 1 && Without(ds, ds', k)
    ensures Removed(Flat(ds, n), Flat(ds', n - 1), p) && Flat(ds, n)[p] == ds[k][0]
  {
    if n == k + 1 {
      FlatFrame(ds, ds', k);
      p := |Flat(ds, k)|;
    } else {
      p := DropFlat(ds, ds', k, n - 1);
      assert p < |Flat(ds, n - 1)|;
      hide Removed;
      RemoveBefore(Flat(ds, n - 1), Flat(ds', n - 2), p, ds[n - 1]);
    }
  }

  // ---- listings as sets and as maps ----------------------------------------------------

  lemma {:induction false} InsertedAtIndex(es: seq<Entry>, es': seq<Entry>, p: nat, e: Entry)
    requires Inserted(es, es', p, e)
    ensures |es'| == |es| + 1
    ensures forall i :: 0 <= i < |es'| ==> es'[i] == if i < p then es[i] else if i == p then e else es[i - 1]
  {
  }

  lemma {:induction false} RemovedAtIndex(es: seq<Entry>, es': seq<Entry>, p: nat)
    requires Removed(es, es', p)
    ensures |es| == |es'| + 1
    ensures forall i {:trigger es'[i]} :: 0 <= i < |es'| ==> es'[i] == es[if i < p then i else i + 1]
  {
  }

  /** Inserting under a fresh name keeps names unique and adds just that entry. */
  lemma {:induction false} InsertContent(es: seq<Entry>, es': seq<Entry>, p: nat, e: Entry)
    requires Inserted(es, es', p, e) && Unique(es) && Unnamed(es, e.name)
    ensures Unique(es') && Content(es') == Content(es) + {e}
    ensures p > 0 ==> es'[0] == es[0]
  {
    InsertedAtIndex(es, es', p, e);
    hide Inserted;
    forall x ensures x in es' <==> x in es || x == e {
      if x in es {
        var i :| 0 <= i < |es| && es[i] == x;
        assert es'[if i < p then i else i + 1] == x;
      }
      if x == e {
        assert es'[p] == x;
      }
    }
  }

  /** Removing keeps names unique and takes away just the entry at that place. */
  lemma {:induction false} RemoveContent(es: seq<Entry>, es': seq<Entry>, p: nat)
    requires Removed(es, es', p) && Unique(es)
    ensures Unique(es') && Content(es') == Content(es) - {es[p]}
    ensures p > 0 ==> es' != [] && es'[0] == es[0]
  {
    RemovedAtIndex(es, es', p);
    hide Removed;
    KeepsUnique(es, es', p);
    forall x ensures x in es' <==> x in es && x != es[p] {
      RemovedMember(es, es', p, x);
    }
  }

  lemma {:induction false} KeepsUnique(es: seq<Entry>, es': seq<Entry>, p: nat)
    requires p < |es| == |es'| + 1 && forall i {:trigger es'[i]} :: 0 <= i < |es'| ==> es'[i] == es[if i < p then i else i + 1]
    requires Unique(es)
    ensures Unique(es')
  {
  }

  lemma {:induction false} RemovedMember(es: seq<Entry>, es': seq<Entry>, p: nat, x: Entry)
    requires p < |es| == |es'| + 1 && forall i {:trigger es'[i]} :: 0 <= i < |es'| ==> es'[i] == es[if i < p then i else i + 1]
    requires Unique(es)
    ensures x in es' <==> x in es && x != es[p]
  {
    if x in es' {
      var i :| 0 <= i < |es'| && es'[i] == x;
      var j := if i < p then i else i + 1;
      assert es[j] == x && es[j].name != es[p].name;
    }
    if x in es && x != es[p] {
      var i :| 0 <= i < |es| && es[i] == x;
      assert es'[if i < p then i else i - 1] == x;
    }
  }

  /** Removing the entry that was inserted restores the listing, in order. */
  lemma {:induction false} RemoveUndoesInsert(es: seq<Entry>, es1: seq<Entry>, es2: seq<Entry>, p: nat, q: nat, e: Entry)
    requires Unique(es) && Unnamed(es, e.name)
    requires Inserted(es, es1, p, e) && Removed(es1, es2, q) && es1[q].name == e.name
    ensures es2 == es
  {
    InsertContent(es, es1, p, e);
    InsertedAtIndex(es, es1, p, e);
    RemovedAtIndex(es1, es2, q);
    assert es1[p].name == e.name;
    assert p == q;
  }

  // ---- lookup ------------------------------------------------------------------------

  /** With unique names the lookup is a finite map: it finds the inode an entry gives the
      name, and 0 exactly when no entry has it. */
  lemma {:induction false} LookupIsMap(es: seq<Entry>, name: Name)
    requires Unique(es) && forall i :: 0 <= i < |es| ==> es[i].ino != 0
    ensures Lookup(es, name) == 0 <==> Unnamed(es, name)
    ensures forall e :: e in es && e.name == name ==> Lookup(es, name) == e.ino
    ensures Lookup(es, name) != 0 ==> Entry(Lookup(es, name), name) in es
  {
    if es != [] {
      var rest := es[1..];
      assert Unique(rest);
      LookupIsMap(rest, name);
      assert forall i :: 0 <= i < |rest| ==> rest[i] == es[i + 1];
      assert forall i :: 1 <= i < |es| ==> es[i] == rest[i - 1];
      if es[0].name == name {
        assert Entry(es[0].ino, name) == es[0];
      }
    }
  }

  lemma {:induction false} LookupConcat(a: seq<Entry>, b: seq<Entry>, name: Name)
    requires forall i :: 0 <= i < |a| ==> a[i].ino != 0
    ensures Lookup(a + b, name) == if Lookup(a, name) != 0 then Lookup(a, name) else Lookup(b, name)
  {
    if a == [] {
      assert a + b == b;
    } else {
      assert (a + b)[1..] == a[1..] + b;
      LookupConcat(a[1..], b, name);
    }
  }
}
