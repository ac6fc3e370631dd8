/** The chained hash table. Entries live in a memory of cells, so that freeing one takes it
    out of the memory. */
module Hash {

  /** An address; 0 is NULL. */
  type Ptr = nat

  const NULL: Ptr := 0

  datatype Entry<V> = Entry(key: nat, value: V, next: Ptr)

  datatype Spot = Spot(bucket: nat, index: nat)

  type Cells<V> = map<Ptr, Entry<V>>

  /** keycmp says "equal" for an equivalence, and keyhsh agrees with it. */
  ghost predicate Congruent(same: (nat, nat) -> bool, hash: nat -> nat) {
    && (forall a {:trigger same(a, a)} :: same(a, a))
    && (forall a, b {:trigger Alike(same, hash, a, b)} :: Alike(same, hash, a, b))
    && (forall a, b, c {:trigger Chained(same, a, b, c)} :: Chained(same, a, b, c))
  }

  ghost predicate Alike(same: (nat, nat) -> bool, hash: nat -> nat, a: nat, b: nat) {
    same(a, b) ==> same(b, a) && hash(a) == hash(b)
  }

  ghost predicate Chained(same: (nat, nat) -> bool, a: nat, b: nat, c: nat) {
    same(a, b) && same(b, c) ==> same(a, c)
  }

  lemma {:induction false} EqualKeys(same: (nat, nat) -> bool, hash: nat -> nat, a: nat, b: nat, c: nat)
    requires Congruent(same, hash)
    ensures same(a, a) && (same(a, b) <==> same(b, a)) && (same(a, b) ==> hash(a) == hash(b))
    ensures same(a, b) ==> (same(a, c) <==> same(b, c))
  {
    assert Alike(same, hash, a, b) && Alike(same, hash, b, a) && Chained(same, a, b, c) && Chained(same, b, a, c);
  }

  ghost function Nth(ps: seq<Ptr>, i: nat): Ptr {
    if i < |ps| then ps[i] else NULL
  }

  /** The i-th entry of bucket b's chain. */
  ghost predicate CellOk<V>(mem: Cells<V>, chains: seq<seq<Ptr>>, spot: map<Ptr, Spot>, hash: nat -> nat, b: nat, i: nat)
    requires b < |chains| && i < |chains[b]|
  {
    var p := chains[b][i];
    && p in mem && p != NULL && mem[p].next == Nth(chains[b], i + 1)
    && hash(mem[p].key) % |chains| == b && p in spot && spot[p] == Spot(b, i)
  }

  ghost predicate ChainOk<V>(mem: Cells<V>, chains: seq<seq<Ptr>>, spot: map<Ptr, Spot>, hash: nat -> nat, b: nat)
    requires b < |chains|
  {
    forall i: nat {:trigger CellOk(mem, chains, spot, hash, b, i)} :: i < |chains[b]| ==> CellOk(mem, chains, spot, hash, b, i)
  }

  ghost predicate SpotOk<V>(mem: Cells<V>, chains: seq<seq<Ptr>>, spot: map<Ptr, Spot>, p: Ptr) {
    && p in spot && spot[p].bucket < |chains| && spot[p].index < |chains[spot[p].bucket]|
    && chains[spot[p].bucket][spot[p].index] == p
  }

  /** No two entries have equal keys. */
  ghost predicate KeysDiffer<V>(mem: Cells<V>, same: (nat, nat) -> bool) {
    forall p, q {:trigger Differ(mem, same, p, q)} :: Differ(mem, same, p, q)
  }

  ghost predicate Differ<V>(mem: Cells<V>, same: (nat, nat) -> bool, p: Ptr, q: Ptr) {
    p in mem && q in mem && p != q ==> !same(mem[p].key, mem[q].key)
  }

  ghost predicate BucketOk<V>(mem: Cells<V>, buckets: seq<Ptr>, chains: seq<seq<Ptr>>, spot: map<Ptr, Spot>, hash: nat -> nat, b: nat)
    requires b < |chains| == |buckets|
  {
    buckets[b] == Nth(chains[b], 0) && ChainOk(mem, chains, spot, hash, b)
  }

  ghost predicate TableOk<V>(mem: Cells<V>, buckets: seq<Ptr>, chains: seq<seq<Ptr>>, spot: map<Ptr, Spot>,
                             same: (nat, nat) -> bool, hash: nat -> nat) {
    && |buckets| == |chains| > 0 && NULL !in mem
    && (forall b: nat {:trigger BucketOk(mem, buckets, chains, spot, hash, b)} :: b < |chains| ==> BucketOk(mem, buckets, chains, spot, hash, b))
    && (forall p {:trigger SpotOk(mem, chains, spot, p)} :: p in mem ==> SpotOk(mem, chains, spot, p))
    && KeysDiffer(mem, same)
  }

  /** The finite map the table stands for: some entry with an equal key has this value. */
  ghost predicate Maps<V(!new)>(mem: Cells<V>, same: (nat, nat) -> bool, key: nat, v: V) {
    exists p :: EntryIs(mem, same, key, v, p)
  }

  ghost predicate EntryIs<V>(mem: Cells<V>, same: (nat, nat) -> bool, key: nat, v: V, p: Ptr) {
    p in mem && same(mem[p].key, key) && mem[p].value == v
  }

  ghost predicate Absent<V>(mem: Cells<V>, same: (nat, nat) -> bool, key: nat) {
    forall p :: p in mem ==> !same(mem[p].key, key)
  }

  lemma {:induction false} EntryOnce<V>(mem: Cells<V>, same: (nat, nat) -> bool, hash: nat -> nat, k: nat, l: nat, p: Ptr, q: Ptr)
    requires Congruent(same, hash) && KeysDiffer(mem, same) && same(k, l)
    requires p in mem && q in mem && same(mem[p].key, k) && same(mem[q].key, l)
    ensures p == q
  {
    hide Congruent;
    EqualKeys(same, hash, mem[p].key, k, l);
    EqualKeys(same, hash, l, mem[q].key, mem[p].key);
    EqualKeys(same, hash, l, mem[p].key, mem[q].key);
    EqualKeys(same, hash, mem[q].key, l, l);
    assert Differ(mem, same, p, q);
  }

  /** It is a map: equal keys have one value. */
  lemma {:induction false} MapsOnce<V(!new)>(mem: Cells<V>, same: (nat, nat) -> bool, hash: nat -> nat, k: nat, l: nat, v: V, w: V)
    requires Congruent(same, hash) && KeysDiffer(mem, same) && same(k, l) && Maps(mem, same, k, v) && Maps(mem, same, l, w)
    ensures v == w
  {
    hide Congruent;
    var p :| EntryIs(mem, same, k, v, p);
    var q :| EntryIs(mem, same, l, w, q);
    EntryOnce(mem, same, hash, k, l, p, q);
  }

  // ---- overwriting, adding, removing -----------------------------------------------------

  lemma {:induction false} OverwriteOk<V>(mem: Cells<V>, buckets: seq<Ptr>, chains: seq<seq<Ptr>>, spot: map<Ptr, Spot>,
                                          same: (nat, nat) -> bool, hash: nat -> nat, p: Ptr, v: V)
    requires TableOk(mem, buckets, chains, spot, same, hash) && p in mem
    ensures TableOk(mem[p := mem[p].(value := v)], buckets, chains, spot, same, hash)
  {
    hide KeysDiffer, CellOk;
    var mem' := mem[p := mem[p].(value := v)];
    forall b: nat | b < |chains| ensures BucketOk(mem', buckets, chains, spot, hash, b) {
      assert BucketOk(mem, buckets, chains, spot, hash, b);
      forall i: nat | i < |chains[b]| ensures CellOk(mem', chains, spot, hash, b, i) {
        OverwriteCell(mem, chains, spot, hash, p, v, b, i);
      }
    }
    forall q | q in mem' ensures SpotOk(mem', chains, spot, q) {
      assert SpotOk(mem, chains, spot, q);
    }
    OverwriteKeys(mem, same, p, v);
  }

  lemma {:induction false} OverwriteCell<V>(mem: Cells<V>, chains: seq<seq<Ptr>>, spot: map<Ptr, Spot>, hash: nat -> nat,
                                            p: Ptr, v: V, b: nat, i: nat)
    requires p in mem && b < |chains| && i < |chains[b]| && CellOk(mem, chains, spot, hash, b, i)
    ensures CellOk(mem[p := mem[p].(value := v)], chains, spot, hash, b, i)
  {
  }

  lemma {:induction false} OverwriteKeys<V>(mem: Cells<V>, same: (nat, nat) -> bool, p: Ptr, v: V)
    requires p in mem && KeysDiffer(mem, same)
    ensures KeysDiffer(mem[p := mem[p].(value := v)], same)
  {
    var mem' := mem[p := mem[p].(value := v)];
    forall q, r ensures Differ(mem', same, q, r) {
      assert Differ(mem, same, q, r);
    }
  }

  /** An entry with this key is in the chain of the key's bucket. */
  lemma {:induction false} InBucket<V>(mem: Cells<V>, buckets: seq<Ptr>, chains: seq<seq<Ptr>>, spot: map<Ptr, Spot>,
                                       same: (nat, nat) -> bool, hash: nat -> nat, key: nat, p: Ptr)
    requires TableOk(mem, buckets, chains, spot, same, hash) && Congruent(same, hash) && p in mem && same(mem[p].key, key)
    ensures p in spot && spot[p].bucket == hash(key) % |chains| && spot[p].index < |chains[hash(key) % |chains|]|
    ensures chains[hash(key) % |chains|][spot[p].index] == p
  {
    hide Congruent, KeysDiffer;
    assert SpotOk(mem, chains, spot, p);
    assert BucketOk(mem, buckets, chains, spot, hash, spot[p].bucket);
    assert CellOk(mem, chains, spot, hash, spot[p].bucket, spot[p].index);
    EqualKeys(same, hash, mem[p].key, key, key);
  }

  /** The memory after a new last entry of its chain was linked in at p. */
  ghost function Appended<V>(mem: Cells<V>, ch: seq<Ptr>, p: Ptr, e: Entry<V>): Cells<V>
    requires ch != [] ==> ch[|ch| - 1] in mem
  {
    (if ch == [] then mem else mem[ch[|ch| - 1] := mem[ch[|ch| - 1]].(next := p)])[p := e]
  }

  lemma {:induction false} AppendOk<V>(mem: Cells<V>, buckets: seq<Ptr>, chains: seq<seq<Ptr>>, spot: map<Ptr, Spot>,
                                       same: (nat, nat) -> bool, hash: nat -> nat, p: Ptr, e: Entry<V>, b: nat)
    requires TableOk(mem, buckets, chains, spot, same, hash) && Congruent(same, hash)
    requires p != NULL && p !in mem && e.next == NULL && Absent(mem, same, e.key) && b == hash(e.key) % |chains|
    ensures chains[b] != [] ==> chains[b][|chains[b]| - 1] in mem
    ensures TableOk(Appended(mem, chains[b], p, e), if chains[b] == [] then buckets[b := p] else buckets,
                    chains[b := chains[b] + [p]], spot[p := Spot(b, |chains[b]|)], same, hash)
  {
    hide Congruent, KeysDiffer, Absent;
    var ch := chains[b];
    assert BucketOk(mem, buckets, chains, spot, hash, b);
    if ch != [] {
      assert CellOk(mem, chains, spot, hash, b, |ch| - 1);
    }
    var mem' := Appended(mem, ch, p, e);
    var buckets' := if ch == [] then buckets[b := p] else buckets;
    var chains' := chains[b := ch + [p]];
    var spot' := spot[p := Spot(b, |ch|)];
    forall c: nat | c < |chains'| ensures BucketOk(mem', buckets', chains', spot', hash, c) {
      assert BucketOk(mem, buckets, chains, spot, hash, c);
      forall i: nat | i < |chains'[c]| ensures CellOk(mem', chains', spot', hash, c, i) {
        if i < |chains[c]| {
          assert CellOk(mem, chains, spot, hash, c, i);
        }
      }
    }
    forall q | q in mem' ensures SpotOk(mem', chains', spot', q) {
      if q != p {
        assert SpotOk(mem, chains, spot, q);
      }
    }
    AppendKeys(mem, ch, same, hash, p, e);
  }

  lemma {:induction false} AppendKeys<V>(mem: Cells<V>, ch: seq<Ptr>, same: (nat, nat) -> bool, hash: nat -> nat, p: Ptr, e: Entry<V>)
    requires KeysDiffer(mem, same) && Congruent(same, hash) && p !in mem && Absent(mem, same, e.key)
    requires ch != [] ==> ch[|ch| - 1] in mem
    ensures KeysDiffer(Appended(mem, ch, p, e), same)
  {
    hide Congruent;
    var mem' := Appended(mem, ch, p, e);
    forall q, r ensures Differ(mem', same, q, r) {
      assert Differ(mem, same, q, r);
      if q == p && r in mem {
        EqualKeys(same, hash, e.key, mem[r].key, e.key);
      }
    }
  }

  /** The memory after the i-th entry of a chain was unlinked and freed. */
  ghost function Unlinked<V>(mem: Cells<V>, ch: seq<Ptr>, i: nat): Cells<V>
    requires i < |ch| && ch[i] in mem && (i > 0 ==> ch[i - 1] in mem)
  {
    (if i == 0 then mem else mem[ch[i - 1] := mem[ch[i - 1]].(next := mem[ch[i]].next)]) - {ch[i]}
  }

  ghost function Closed(spot: map<Ptr, Spot>, b: nat, i: nat, q: Ptr): Spot {
    if q !in spot then Spot(0, 0)
    else if spot[q].bucket == b && spot[q].index > i then Spot(b, spot[q].index - 1)
    else spot[q]
  }

  ghost function SpotsAfter(spot: map<Ptr, Spot>, b: nat, i: nat): map<Ptr, Spot> {
    map q | q in spot :: Closed(spot, b, i, q)
  }

  lemma {:induction false} ChainCells<V>(mem: Cells<V>, buckets: seq<Ptr>, chains: seq<seq<Ptr>>, spot: map<Ptr, Spot>,
                                         same: (nat, nat) -> bool, hash: nat -> nat, b: nat, i: nat)
    requires TableOk(mem, buckets, chains, spot, same, hash) && b < |chains| && i < |chains[b]|
    ensures CellOk(mem, chains, spot, hash, b, i)
    ensures i > 0 ==> CellOk(mem, chains, spot, hash, b, i - 1)
    ensures BucketOk(mem, buckets, chains, spot, hash, b)
  {
    assert BucketOk(mem, buckets, chains, spot, hash, b);
  }

  lemma {:induction false} RemoveCells<V>(mem: Cells<V>, buckets: seq<Ptr>, chains: seq<seq<Ptr>>, spot: map<Ptr, Spot>,
                                          same: (nat, nat) -> bool, hash: nat -> nat, b: nat, i: nat, c: nat, j: nat)
    requires TableOk(mem, buckets, chains, spot, same, hash) && b < |chains| && i < |chains[b]|
    requires chains[b][i] in mem && (i > 0 ==> chains[b][i - 1] in mem)
    requires c < |chains| && j < |chains[b := chains[b][..i] + chains[b][i + 1..]][c]|
    ensures CellOk(Unlinked(mem, chains[b], i), chains[b := chains[b][..i] + chains[b][i + 1..]], SpotsAfter(spot, b, i), hash, c, j)
  {
    var ch := chains[b];
    var chains' := chains[b := ch[..i] + ch[i + 1..]];
    var k := if c == b && j >= i then j + 1 else j;
    assert chains'[c][j] == chains[c][k];
    ChainCells(mem, buckets, chains, spot, same, hash, b, i);
    ChainCells(mem, buckets, chains, spot, same, hash, c, k);
    if c == b {
      assert j + 1 < |chains'[b]| ==> chains'[b][j + 1] == if j + 1 < i then ch[j + 1] else ch[j + 2];
    }
  }

  lemma {:induction false} RemoveOk<V>(mem: Cells<V>, buckets: seq<Ptr>, chains: seq<seq<Ptr>>, spot: map<Ptr, Spot>,
                                       same: (nat, nat) -> bool, hash: nat -> nat, b: nat, i: nat)
    requires TableOk(mem, buckets, chains, spot, same, hash) && b < |chains| && i < |chains[b]|
    ensures chains[b][i] in mem && (i > 0 ==> chains[b][i - 1] in mem)
    ensures TableOk(Unlinked(mem, chains[b], i), if i == 0 then buckets[b := mem[chains[b][i]].next] else buckets,
                    chains[b := chains[b][..i] + chains[b][i + 1..]], SpotsAfter(spot, b, i), same, hash)
  {
    hide KeysDiffer, CellOk, SpotsAfter;
    ChainCells(mem, buckets, chains, spot, same, hash, b, i);
    CellKnown(mem, chains, spot, hash, b, i);
    var ch := chains[b];
    var mem' := Unlinked(mem, ch, i);
    var buckets' := if i == 0 then buckets[b := mem[ch[i]].next] else buckets;
    var chains' := chains[b := ch[..i] + ch[i + 1..]];
    var spot' := SpotsAfter(spot, b, i);
    forall c: nat | c < |chains'| ensures BucketOk(mem', buckets', chains', spot', hash, c) {
      assert BucketOk(mem, buckets, chains, spot, hash, c);
      forall j: nat | j < |chains'[c]| ensures CellOk(mem', chains', spot', hash, c, j) {
        RemoveCells(mem, buckets, chains, spot, same, hash, b, i, c, j);
      }
    }
    forall q | q in mem' ensures SpotOk(mem', chains', spot', q) {
      RemoveSpot(mem, buckets, chains, spot, same, hash, b, i, q);
    }
    UnlinkKeys(mem, ch, same, i);
  }

  lemma {:induction false} CellKnown<V>(mem: Cells<V>, chains: seq<seq<Ptr>>, spot: map<Ptr, Spot>, hash: nat -> nat, b: nat, i: nat)
    requires b < |chains| && i < |chains[b]| && CellOk(mem, chains, spot, hash, b, i)
    requires i > 0 ==> CellOk(mem, chains, spot, hash, b, i - 1)
    ensures chains[b][i] in mem && mem[chains[b][i]].next == Nth(chains[b], i + 1) && (i > 0 ==> chains[b][i - 1] in mem)
    ensures chains[b][i] in spot && spot[chains[b][i]] == Spot(b, i)
  {
  }

  lemma {:induction false} RemoveSpot<V>(mem: Cells<V>, buckets: seq<Ptr>, chains: seq<seq<Ptr>>, spot: map<Ptr, Spot>,
                                         same: (nat, nat) -> bool, hash: nat -> nat, b: nat, i: nat, q: Ptr)
    requires TableOk(mem, buckets, chains, spot, same, hash) && b < |chains| && i < |chains[b]| && q in mem && q != chains[b][i]
    ensures SpotOk(mem, chains[b := chains[b][..i] + chains[b][i + 1..]], SpotsAfter(spot, b, i), q)
  {
    hide KeysDiffer, CellOk;
    assert SpotOk(mem, chains, spot, q);
  }

  lemma {:induction false} UnlinkKeys<V>(mem: Cells<V>, ch: seq<Ptr>, same: (nat, nat) -> bool, i: nat)
    requires KeysDiffer(mem, same) && i < |ch| && ch[i] in mem && (i > 0 ==> ch[i - 1] in mem)
    ensures KeysDiffer(Unlinked(mem, ch, i), same)
  {
    var mem' := Unlinked(mem, ch, i);
    forall q, r ensures Differ(mem', same, q, r) {
      assert Differ(mem, same, q, r);
    }
  }

  // ---- what the three changes do to the map ----------------------------------------------

  /** One key's value became v; every other key kept what it had. */
  ghost predicate PutIn<V(!new)>(mem: Cells<V>, mem': Cells<V>, same: (nat, nat) -> bool, key: nat, v: V) {
    forall k: nat, w: V {:trigger Maps(mem', same, k, w)} ::
      Maps(mem', same, k, w) <==> if same(key, k) then w == v else Maps(mem, same, k, w)
  }

  /** One key is gone; every other key kept what it had. */
  ghost predicate TakenOut<V(!new)>(mem: Cells<V>, mem': Cells<V>, same: (nat, nat) -> bool, key: nat) {
    forall k: nat, w: V {:trigger Maps(mem', same, k, w)} ::
      Maps(mem', same, k, w) <==> !same(key, k) && Maps(mem, same, k, w)
  }

  /** Two memories hold the same keys and values, except perhaps at p. */
  ghost predicate SameElsewhere<V>(mem: Cells<V>, mem': Cells<V>, p: Ptr) {
    && (forall q {:trigger q in mem} :: q in mem && q != p ==> q in mem' && mem'[q].key == mem[q].key && mem'[q].value == mem[q].value)
    && (forall q {:trigger q in mem'} :: q in mem' && q != p ==> q in mem)
  }

  lemma {:induction false} PutMeans<V(!new)>(mem: Cells<V>, mem': Cells<V>, same: (nat, nat) -> bool, hash: nat -> nat,
                                             p: Ptr, key: nat, v: V)
    requires Congruent(same, hash) && KeysDiffer(mem', same) && SameElsewhere(mem, mem', p)
    requires p in mem' && same(mem'[p].key, key) && mem'[p].value == v
    requires p in mem ==> same(mem[p].key, key)
    ensures PutIn(mem, mem', same, key, v)
  {
    hide Congruent, KeysDiffer;
    forall k: nat, w: V ensures Maps(mem', same, k, w) <==> if same(key, k) then w == v else Maps(mem, same, k, w) {
      EqualKeys(same, hash, key, mem'[p].key, k);
      if same(key, k) {
        assert EntryIs(mem', same, k, v, p);
        if Maps(mem', same, k, w) {
          EqualKeys(same, hash, k, k, k);
          MapsOnce(mem', same, hash, k, k, v, w);
        }
      } else {
        if Maps(mem', same, k, w) {
          var q :| EntryIs(mem', same, k, w, q);
          assert EntryIs(mem, same, k, w, q);
        }
        if Maps(mem, same, k, w) {
          var q :| EntryIs(mem, same, k, w, q);
          if p in mem {
            EqualKeys(same, hash, key, mem[p].key, k);
          }
          assert EntryIs(mem', same, k, w, q);
        }
      }
    }
  }

  lemma {:induction false} TakeMeans<V(!new)>(mem: Cells<V>, mem': Cells<V>, same: (nat, nat) -> bool, hash: nat -> nat,
                                              p: Ptr, key: nat)
    requires Congruent(same, hash) && KeysDiffer(mem, same) && SameElsewhere(mem, mem', p)
    requires p !in mem' && p in mem && same(mem[p].key, key)
    ensures TakenOut(mem, mem', same, key)
  {
    hide Congruent, KeysDiffer;
    forall k: nat, w: V ensures Maps(mem', same, k, w) <==> !same(key, k) && Maps(mem, same, k, w) {
      EqualKeys(same, hash, key, mem[p].key, k);
      if Maps(mem', same, k, w) {
        var q :| EntryIs(mem', same, k, w, q);
        assert EntryIs(mem, same, k, w, q);
        if same(key, k) {
          EntryOnce(mem, same, hash, key, k, p, q);
        }
      }
      if !same(key, k) && Maps(mem, same, k, w) {
        var q :| EntryIs(mem, same, k, w, q);
        assert EntryIs(mem', same, k, w, q);
      }
    }
  }

  /** The whole chain was walked without meeting the key. */
  lemma {:induction false} WalkedAll<V>(mem: Cells<V>, buckets: seq<Ptr>, chains: seq<seq<Ptr>>, spot: map<Ptr, Spot>,
                                        same: (nat, nat) -> bool, hash: nat -> nat, key: nat, b: nat)
    requires TableOk(mem, buckets, chains, spot, same, hash) && Congruent(same, hash) && b == hash(key) % |chains|
    requires forall i: nat {:trigger chains[b][i]} :: i < |chains[b]| ==> chains[b][i] in mem && !same(mem[chains[b][i]].key, key)
    ensures Absent(mem, same, key)
  {
    hide Congruent, TableOk;
    forall p | p in mem ensures !same(mem[p].key, key) {
      if same(mem[p].key, key) {
        InBucket(mem, buckets, chains, spot, same, hash, key, p);
      }
    }
  }

  lemma {:induction false} AbsentMeans<V(!new)>(mem: Cells<V>, same: (nat, nat) -> bool, key: nat)
    ensures Absent(mem, same, key) <==> forall v :: !Maps(mem, same, key, v)
  {
    forall v | Maps(mem, same, key, v) ensures !Absent(mem, same, key) {
      var p :| EntryIs(mem, same, key, v, p);
    }
    if !Absent(mem, same, key) {
      var p :| p in mem && same(mem[p].key, key);
      assert EntryIs(mem, same, key, mem[p].value, p);
      assert Maps(mem, same, key, mem[p].value);
    }
  }

  /** An entry was met: its value is the key's one value. */
  lemma {:induction false} HitMeans<V(!new)>(mem: Cells<V>, same: (nat, nat) -> bool, hash: nat -> nat, key: nat, p: Ptr)
    requires Congruent(same, hash) && KeysDiffer(mem, same) && p in mem && same(mem[p].key, key)
    ensures !Absent(mem, same, key) && forall v :: Maps(mem, same, key, v) <==> v == mem[p].value
  {
    hide Congruent, KeysDiffer;
    assert EntryIs(mem, same, key, mem[p].value, p);
    EqualKeys(same, hash, key, key, key);
    forall v | Maps(mem, same, key, v) ensures v == mem[p].value {
      MapsOnce(mem, same, hash, key, key, v, mem[p].value);
    }
  }

  lemma {:induction false} OnlyEntry<V>(mem: Cells<V>, same: (nat, nat) -> bool, hash: nat -> nat, key: nat, p: Ptr)
    requires Congruent(same, hash) && KeysDiffer(mem, same) && p in mem && same(mem[p].key, key)
    ensures forall q :: q in mem && same(mem[q].key, key) ==> q == p
  {
    hide Congruent, KeysDiffer;
    EqualKeys(same, hash, key, key, key);
    forall q | q in mem && same(mem[q].key, key) ensures q == p {
      EntryOnce(mem, same, hash, key, key, p, q);
    }
  }

  lemma {:induction false} TableFacts<V>(mem: Cells<V>, buckets: seq<Ptr>, chains: seq<seq<Ptr>>, spot: map<Ptr, Spot>,
                                         same: (nat, nat) -> bool, hash: nat -> nat)
    requires TableOk(mem, buckets, chains, spot, same, hash)
    ensures |buckets| == |chains| > 0 && KeysDiffer(mem, same)
  {
  }

  lemma {:induction false} OverwriteMeans<V(!new)>(mem: Cells<V>, same: (nat, nat) -> bool, hash: nat -> nat, p: Ptr, key: nat, v: V)
    requires Congruent(same, hash) && KeysDiffer(mem, same) && p in mem && same(mem[p].key, key)
    ensures PutIn(mem, mem[p := mem[p].(value := v)], same, key, v)
    ensures Values(mem) + multiset([v]) == Values(mem[p := mem[p].(value := v)]) + multiset([mem[p].value])
  {
    hide Congruent;
    OverwriteKeys(mem, same, p, v);
    PutMeans(mem, mem[p := mem[p].(value := v)], same, hash, p, key, v);
    ValuesMove(mem, mem[p := mem[p].(value := v)], p);
  }

  lemma {:induction false} OneMore<V>(mem: Cells<V>, mem': Cells<V>, p: Ptr)
    requires p !in mem && p in mem' && mem'.Keys - {p} == mem.Keys
    ensures |mem'| == |mem| + 1
  {
    assert mem'.Keys == mem.Keys + {p};
    assert |mem'| == |mem'.Keys| && |mem| == |mem.Keys|;
  }

  lemma {:induction false} AppendedElsewhere<V>(mem: Cells<V>, ch: seq<Ptr>, p: Ptr, e: Entry<V>)
    requires p !in mem && (ch != [] ==> ch[|ch| - 1] in mem)
    ensures var mem' := Appended(mem, ch, p, e);
            SameElsewhere(mem, mem', p) && p in mem' && mem'[p] == e && mem'.Keys - {p} == mem.Keys
  {
    var mem' := Appended(mem, ch, p, e);
    assert mem'.Keys == mem.Keys + {p};
  }

  lemma {:induction false} ValueThere<V>(mem: Cells<V>, p: Ptr)
    ensures ValueAt(mem, p) == if p in mem then multiset([mem[p].value]) else multiset([])
  {
  }

  lemma {:induction false} AppendMeans<V(!new)>(mem: Cells<V>, ch: seq<Ptr>, same: (nat, nat) -> bool, hash: nat -> nat,
                                                p: Ptr, e: Entry<V>, key: nat)
    requires Congruent(same, hash) && p !in mem && same(e.key, key) && (ch != [] ==> ch[|ch| - 1] in mem)
    requires KeysDiffer(Appended(mem, ch, p, e), same)
    ensures PutIn(mem, Appended(mem, ch, p, e), same, key, e.value)
    ensures |Appended(mem, ch, p, e)| == |mem| + 1
    ensures Values(mem) + multiset([e.value]) == Values(Appended(mem, ch, p, e)) + multiset([])
  {
    hide *;
    AppendedElsewhere(mem, ch, p, e);
    PutMeans(mem, Appended(mem, ch, p, e), same, hash, p, key, e.value);
    ValuesMove(mem, Appended(mem, ch, p, e), p);
    ValueThere(mem, p);
    ValueThere(Appended(mem, ch, p, e), p);
    OneMore(mem, Appended(mem, ch, p, e), p);
  }

  lemma {:induction false} UnlinkMeans<V(!new)>(mem: Cells<V>, ch: seq<Ptr>, same: (nat, nat) -> bool, hash: nat -> nat,
                                                i: nat, key: nat)
    requires Congruent(same, hash) && KeysDiffer(mem, same)
    requires i < |ch| && ch[i] in mem && (i > 0 ==> ch[i - 1] in mem) && same(mem[ch[i]].key, key)
    ensures TakenOut(mem, Unlinked(mem, ch, i), same, key)
    ensures |Unlinked(mem, ch, i)| == |mem| - 1
    ensures Values(mem) + multiset([]) == Values(Unlinked(mem, ch, i)) + multiset([mem[ch[i]].value])
  {
    hide Congruent, KeysDiffer;
    TakeMeans(mem, Unlinked(mem, ch, i), same, hash, ch[i], key);
    ValuesMove(mem, Unlinked(mem, ch, i), ch[i]);
    assert Unlinked(mem, ch, i).Keys == mem.Keys - {ch[i]};
    OneMore(Unlinked(mem, ch, i), mem, ch[i]);
  }

  // ---- ownership of the values -----------------------------------------------------------

  /** The values that these entries hold. */
  ghost function Held<V>(mem: Cells<V>, ps: set<Ptr>): multiset<V>
    requires ps <= mem.Keys
  {
    if ps == {} then multiset{} else
      var p :| p in ps;
      multiset{mem[p].value} + Held(mem, ps - {p})
  }

  /** All values in the table. */
  ghost function Values<V>(mem: Cells<V>): multiset<V> {
    Held(mem, mem.Keys)
  }

  ghost function ValueAt<V>(mem: Cells<V>, p: Ptr): multiset<V> {
    if p in mem then multiset{mem[p].value} else multiset{}
  }

  lemma {:induction false} HeldPick<V>(mem: Cells<V>, ps: set<Ptr>, p: Ptr)
    requires p in ps && ps <= mem.Keys
    ensures Held(mem, ps) == multiset{mem[p].value} + Held(mem, ps - {p})
  {
    var q :| q in ps && Held(mem, ps) == multiset{mem[q].value} + Held(mem, ps - {q});
    if q != p {
      HeldPick(mem, ps - {q}, p);
      HeldPick(mem, ps - {p}, q);
      assert ps - {q} - {p} == ps - {p} - {q};
    }
  }

  lemma {:induction false} HeldSame<V>(mem: Cells<V>, mem': Cells<V>, ps: set<Ptr>)
    requires ps <= mem.Keys && ps <= mem'.Keys && forall p :: p in ps ==> mem[p].value == mem'[p].value
    ensures Held(mem, ps) == Held(mem', ps)
  {
    if ps != {} {
      var p :| p in ps;
      HeldPick(mem, ps, p);
      HeldPick(mem', ps, p);
      HeldSame(mem, mem', ps - {p});
    }
  }

  lemma {:induction false} HeldApart<V>(mem: Cells<V>, p: Ptr)
    ensures Values(mem) == ValueAt(mem, p) + Held(mem, mem.Keys - {p})
  {
    if p in mem {
      HeldPick(mem, mem.Keys, p);
    } else {
      assert mem.Keys - {p} == mem.Keys;
    }
  }

  /** What leaves and what comes in at one entry is the whole difference. */
  lemma {:induction false} ValuesMove<V>(mem: Cells<V>, mem': Cells<V>, p: Ptr)
    requires SameElsewhere(mem, mem', p)
    ensures Values(mem) + ValueAt(mem', p) == Values(mem') + ValueAt(mem, p)
  {
    hide Held, ValueAt, Values;
    assert mem.Keys - {p} == mem'.Keys - {p};
    HeldSame(mem, mem', mem.Keys - {p});
    HeldApart(mem, p);
    HeldApart(mem', p);
  }

  /** Every value put in was given to valfree once, or is still held once. */
  ghost predicate Balanced<V>(frees: bool, stored: seq<V>, freed: seq<V>, mem: Cells<V>) {
    frees ==> multiset(stored) == multiset(freed) + Values(mem)
  }

  lemma {:induction false} Balances<V>(frees: bool, stored: seq<V>, freed: seq<V>, mem: Cells<V>, mem': Cells<V>, put: seq<V>, gone: seq<V>)
    requires Balanced(frees, stored, freed, mem) && Values(mem) + multiset(put) == Values(mem') + multiset(gone)
    ensures Balanced(frees, if put == [] then stored else stored + put, if frees && gone != [] then freed + gone else freed, mem')
  {
    hide Values;
    if frees {
      assert multiset(stored + put) == multiset(freed) + Values(mem) + multiset(put);
      assert multiset(freed + gone) + Values(mem') == multiset(freed) + (Values(mem') + multiset(gone));
    }
  }

  /** What put does with a key that no entry has. */
  lemma {:induction false} PutNew<V(!new)>(mem: Cells<V>, buckets: seq<Ptr>, chains: seq<seq<Ptr>>, spot: map<Ptr, Spot>,
                                           same: (nat, nat) -> bool, hash: nat -> nat, p: Ptr, e: Entry<V>, b: nat, key: nat,
                                           frees: bool, stored: seq<V>, freed: seq<V>, mem': Cells<V>)
    requires TableOk(mem, buckets, chains, spot, same, hash) && Congruent(same, hash) && Balanced(frees, stored, freed, mem)
    requires p != NULL && p !in mem && e.next == NULL && same(e.key, key) && Absent(mem, same, key)
    requires |chains| == |buckets| > 0 && b == hash(key) % |chains|
    requires (chains[b] != [] ==> chains[b][|chains[b]| - 1] in mem) && mem' == Appended(mem, chains[b], p, e)
    ensures TableOk(mem', if chains[b] == [] then buckets[b := p] else buckets,
                    chains[b := chains[b] + [p]], spot[p := Spot(b, |chains[b]|)], same, hash)
    ensures PutIn(mem, mem', same, key, e.value) && |mem'| == |mem| + 1 && Balanced(frees, stored + [e.value], freed, mem')
  {
    hide Congruent, TableOk, PutIn, KeysDiffer, Maps, Absent, Appended, Balanced, Values;
    EqualKeys(same, hash, e.key, key, key);
    SameAbsent(mem, same, hash, key, e.key);
    AppendOk(mem, buckets, chains, spot, same, hash, p, e, b);
    TableFacts(mem', if chains[b] == [] then buckets[b := p] else buckets,
               chains[b := chains[b] + [p]], spot[p := Spot(b, |chains[b]|)], same, hash);
    AppendMeans(mem, chains[b], same, hash, p, e, key);
    Balances(frees, stored, freed, mem, mem', [e.value], []);
  }

  /** What del does with the entry it found. */
  lemma {:induction false} TakeEntry<V(!new)>(mem: Cells<V>, buckets: seq<Ptr>, chains: seq<seq<Ptr>>, spot: map<Ptr, Spot>,
                                              same: (nat, nat) -> bool, hash: nat -> nat, b: nat, i: nat, key: nat,
                                              frees: bool, stored: seq<V>, freed: seq<V>, mem': Cells<V>)
    requires TableOk(mem, buckets, chains, spot, same, hash) && Congruent(same, hash) && Balanced(frees, stored, freed, mem)
    requires |chains| == |buckets| && b < |chains| && i < |chains[b]| && chains[b][i] in mem && same(mem[chains[b][i]].key, key)
    requires (i > 0 ==> chains[b][i - 1] in mem) && mem' == Unlinked(mem, chains[b], i)
    ensures TableOk(mem', if i == 0 then buckets[b := mem[chains[b][i]].next] else buckets,
                    chains[b := chains[b][..i] + chains[b][i + 1..]], SpotsAfter(spot, b, i), same, hash)
    ensures TakenOut(mem, mem', same, key) && |mem'| == |mem| - 1
    ensures Balanced(frees, stored, if frees then freed + [mem[chains[b][i]].value] else freed, mem')
  {
    hide *;
    TableFacts(mem, buckets, chains, spot, same, hash);
    RemoveOk(mem, buckets, chains, spot, same, hash, b, i);
    UnlinkMeans(mem, chains[b], same, hash, i, key);
    Balances(frees, stored, freed, mem, mem', [], [mem[chains[b][i]].value]);
  }

  // ---- the table ---------------------------------------------------------------------------

  class Hash<V(!new)> {
    const same: (nat, nat) -> bool
    const hash: nat -> nat
    const keyDup: nat -> nat
    const freesValues: bool
    const freesKeys: bool
    var buckets: seq<Ptr>
    var mem: Cells<V>
    var itemCount: nat
    /** Every value that was handed to valfree, in order. Valid says that the values put in are
        these and the ones still held, each exactly once. */
    var freed: seq<V>
    /** Every key that was handed to keyfree, in order. */
    var freedKeys: seq<nat>
    /** Every value ever put in, in order. */
    ghost var stored: seq<V>
    ghost var chains: seq<seq<Ptr>>
    ghost var spot: map<Ptr, Spot>

    ghost predicate Valid()
      reads this
    {
      && Congruent(same, hash) && (forall k :: same(keyDup(k), k))
      && TableOk(mem, buckets, chains, spot, same, hash)
      && itemCount == |mem| && Balanced(freesValues, stored, freed, mem)
    }

    /** Valid, in parts. */
    lemma Parts()
      requires Valid()
      ensures Congruent(same, hash) && (forall k :: same(keyDup(k), k)) && itemCount == |mem|
      ensures TableOk(mem, buckets, chains, spot, same, hash) && Balanced(freesValues, stored, freed, mem)
      ensures |buckets| == |chains| > 0 && KeysDiffer(mem, same)
    {
    }

    lemma Whole()
      requires Congruent(same, hash) && (forall k :: same(keyDup(k), k)) && itemCount == |mem|
      requires TableOk(mem, buckets, chains, spot, same, hash) && Balanced(freesValues, stored, freed, mem)
      ensures Valid()
    {
    }

    constructor (same: (nat, nat) -> bool, hash: nat -> nat, keyDup: nat -> nat, freesValues: bool, freesKeys: bool, nb: nat)
      requires Congruent(same, hash) && (forall k :: same(keyDup(k), k)) && nb > 0
      ensures Valid() && mem == map[] && freed == [] && freedKeys == [] && stored == [] && |buckets| == nb
      ensures this.same == same && this.hash == hash && this.freesValues == freesValues && this.freesKeys == freesKeys
    {
      this.same, this.hash, this.keyDup, this.freesValues, this.freesKeys := same, hash, keyDup, freesValues, freesKeys;
      buckets := seq(nb, _ => NULL);
      mem, itemCount, freed, freedKeys, stored := map[], 0, [], [], [];
      chains := seq(nb, _ => []);
      spot := map[];
    }

    method Malloc() returns (p: Ptr)
      ensures p != NULL && p !in mem
    {
      p := 1;
      var left := mem.Keys;
      while p in left
        invariant p >= 1 && left <= mem.Keys && forall a :: a in mem && a >= p ==> a in left
        decreases left
      {
        left := left - {p};
        p := p + 1;
      }
    }

    /** The search that get, put and del share: the entry with the key, if any, and the entry
        walked over just before it, or the last one of the chain. */
    method Search(key: nat, ghost b: nat) returns (ent: Ptr, prev: Ptr, ghost i: nat)
      requires Valid() && b < |chains| && b == hash(key) % |chains|
      ensures i <= |chains[b]| && prev == (if i == 0 then NULL else chains[b][i - 1])
      ensures if i < |chains[b]| then ent == chains[b][i] && ent != NULL && ent in mem && same(mem[ent].key, key) else ent == NULL && Absent(mem, same, key)
      ensures i > 0 ==> prev in mem && prev != NULL
    {
      hide Congruent, KeysDiffer;
      assert BucketOk(mem, buckets, chains, spot, hash, b);
      var index := hash(key) % |buckets|;
      ent, prev, i := buckets[index], NULL, 0;
      while ent != NULL
        invariant i <= |chains[b]| && ent == Nth(chains[b], i) && prev == (if i == 0 then NULL else chains[b][i - 1])
        invariant i > 0 ==> prev in mem && prev != NULL
        invariant forall j: nat {:trigger chains[b][j]} :: j < i ==> chains[b][j] in mem && !same(mem[chains[b][j]].key, key)
        decreases |chains[b]| - i
      {
        ChainCells(mem, buckets, chains, spot, same, hash, b, i);
        if same(mem[ent].key, key) {
          return;
        }
        ent, prev, i := mem[ent].next, ent, i + 1;
      }
      if i < |chains[b]| {
        ChainCells(mem, buckets, chains, spot, same, hash, b, i);
      }
      WalkedAll(mem, buckets, chains, spot, same, hash, key, b);
    }

    /** The value under the key, or -1 exactly when there is none. */
    method Get(key: nat, unset: V) returns (err: int, val: V)
      requires Valid()
      ensures err == 0 || err == -1
      ensures err == 0 ==> Maps(mem, same, key, val)
      ensures err == -1 <==> forall v :: !Maps(mem, same, key, v)
    {
      var ent, prev; ghost var i;
      ent, prev, i := Search(key, hash(key) % |chains|);
      AbsentMeans(mem, same, key);
      if ent == NULL {
        return -1, unset;
      }
      assert EntryIs(mem, same, key, mem[ent].value, ent);
      return 0, mem[ent].value;
    }

    /** What put does with an entry that has the key. */
    method Overwrite(ent: Ptr, key: nat, v: V)
      requires Valid() && ent in mem && same(mem[ent].key, key)
      modifies this
      ensures Valid() && PutIn(old(mem), mem, same, key, v)
      ensures itemCount == old(itemCount) && stored == old(stored) + [v] && freedKeys == old(freedKeys)
      ensures ent in old(mem) && freed == old(freed) + if freesValues then [old(mem)[ent].value] else []
    {
      hide *;
      Parts();
      OverwriteMeans(mem, same, hash, ent, key, v);
      Balances(freesValues, stored, freed, mem, mem[ent := mem[ent].(value := v)], [v], [mem[ent].value]);
      if freesValues {
        freed := freed + [mem[ent].value];
      }
      OverwriteOk(mem, buckets, chains, spot, same, hash, ent, v);
      stored, mem := stored + [v], mem[ent := mem[ent].(value := v)];
      Whole();
    }

    /** What it does otherwise: a new last entry of the chain. `after` is the last one so far. */
    method Append(key: nat, v: V, after: Ptr, ghost b: nat)
      requires Valid() && Absent(mem, same, key) && |chains| == |buckets| > 0 && b == hash(key) % |chains|
      requires if chains[b] == [] then after == NULL else after == chains[b][|chains[b]| - 1] && after in mem && after != NULL
      modifies this
      ensures Valid() && PutIn(old(mem), mem, same, key, v)
      ensures itemCount == old(itemCount) + 1 && stored == old(stored) + [v]
      ensures freed == old(freed) && freedKeys == old(freedKeys)
    {
      hide *;
      Parts();
      var e := Malloc();
      var cell := Entry(keyDup(key), v, NULL);
      assert same(keyDup(key), key);
      ghost var mem' := Appended(mem, chains[b], e, cell);
      AppendIs(mem, chains[b], e, cell);
      PutNew(mem, buckets, chains, spot, same, hash, e, cell, b, key, freesValues, stored, freed, mem');
      itemCount, stored := itemCount + 1, stored + [v];
      chains, spot := chains[b := chains[b] + [e]], spot[e := Spot(b, |chains[b]|)];
      if after == NULL {
        buckets, mem := buckets[hash(key) % |buckets| := e], mem[e := cell];
      } else {
        mem := mem[after := mem[after].(next := e)][e := cell];
      }
      assert mem == mem';
      Whole();
    }

    method Put(key: nat, v: V)
      requires Valid()
      modifies this
      ensures Valid() && PutIn(old(mem), mem, same, key, v)
      ensures stored == old(stored) + [v] && freedKeys == old(freedKeys)
      ensures itemCount == old(itemCount) + if Absent(old(mem), same, key) then 1 else 0
      ensures Absent(old(mem), same, key) ==> freed == old(freed)
      ensures forall w :: Maps(old(mem), same, key, w) ==> freed == old(freed) + if freesValues then [w] else []
    {
      hide *;
      Parts();
      ghost var b := hash(key) % |chains|;
      var ent, after; ghost var i;
      ent, after, i := Search(key, b);
      AbsentMeans(mem, same, key);
      if ent != NULL {
        HitMeans(mem, same, hash, key, ent);
        Overwrite(ent, key, v);
      } else {
        Append(key, v, after, b);
      }
    }

    /** What del does with an entry it found, and the one before it. */
    method Detach(ent: Ptr, prev: Ptr, key: nat, ghost b: nat, ghost i: nat)
      requires Valid() && |chains| == |buckets| > 0 && b == hash(key) % |chains| && i < |chains[b]| && ent == chains[b][i]
      requires ent in mem && same(mem[ent].key, key)
      requires if i == 0 then prev == NULL else prev == chains[b][i - 1] && prev in mem && prev != NULL
      modifies this
      ensures Valid() && TakenOut(old(mem), mem, same, key)
      ensures itemCount == old(itemCount) - 1 && stored == old(stored)
      ensures ent in old(mem) && freed == old(freed) + if freesValues then [old(mem)[ent].value] else []
      ensures freedKeys == old(freedKeys)
    {
      hide *;
      Parts();
      ghost var mem' := Unlinked(mem, chains[b], i);
      UnlinkIs(mem, chains[b], i);
      TakeEntry(mem, buckets, chains, spot, same, hash, b, i, key, freesValues, stored, freed, mem');
      if freesValues {
        freed := freed + [mem[ent].value];
      }
      itemCount := itemCount - 1;
      spot := SpotsAfter(spot, b, i);
      chains := chains[b := chains[b][..i] + chains[b][i + 1..]];
      if prev != NULL {
        mem := mem[prev := mem[prev].(next := mem[ent].next)] - {ent};
      } else {
        buckets, mem := buckets[hash(key) % |buckets| := mem[ent].next], mem - {ent};
      }
      assert mem == mem';
      Whole();
    }

    /** Removes the key's entry, or returns -1 exactly when there is none. */
    method Del(key: nat) returns (err: int)
      requires Valid()
      modifies this
      ensures Valid() && TakenOut(old(mem), mem, same, key) && stored == old(stored)
      ensures err == if Absent(old(mem), same, key) then -1 else 0
      ensures err == -1 ==> mem == old(mem) && freed == old(freed) && freedKeys == old(freedKeys)
      ensures itemCount == old(itemCount) - if err == 0 then 1 else 0
      ensures forall w :: Maps(old(mem), same, key, w) ==> freed == old(freed) + if freesValues then [w] else []
      ensures forall p :: p in old(mem) && same(old(mem)[p].key, key) ==>
                freedKeys == old(freedKeys) + if freesKeys then [old(mem)[p].key] else []
    {
      hide *;
      Parts();
      ghost var b := hash(key) % |chains|;
      var ent, prev; ghost var i;
      ent, prev, i := Search(key, b);
      AbsentMeans(mem, same, key);
      if ent == NULL {
        AbsentTakes(mem, same, hash, key);
        NoEntry(mem, same, key);
        return -1;
      }
      HitMeans(mem, same, hash, key, ent);
      OnlyEntry(mem, same, hash, key, ent);
      if freesKeys {
        freedKeys := freedKeys + [mem[ent].key];
      }
      Whole();
      Detach(ent, prev, key, b, i);
      return 0;
    }
  }

  lemma {:induction false} NoEntry<V>(mem: Cells<V>, same: (nat, nat) -> bool, key: nat)
    requires Absent(mem, same, key)
    ensures forall p :: p in mem ==> !same(mem[p].key, key)
  {
  }

  lemma {:induction false} AppendIs<V>(mem: Cells<V>, ch: seq<Ptr>, p: Ptr, e: Entry<V>)
    requires ch != [] ==> ch[|ch| - 1] in mem
    ensures ch == [] ==> Appended(mem, ch, p, e) == mem[p := e]
    ensures ch != [] ==> Appended(mem, ch, p, e) == mem[ch[|ch| - 1] := mem[ch[|ch| - 1]].(next := p)][p := e]
  {
  }

  lemma {:induction false} UnlinkIs<V>(mem: Cells<V>, ch: seq<Ptr>, i: nat)
    requires i < |ch| && ch[i] in mem && (i > 0 ==> ch[i - 1] in mem)
    ensures i == 0 ==> Unlinked(mem, ch, i) == mem - {ch[i]}
    ensures i > 0 ==> Unlinked(mem, ch, i) == mem[ch[i - 1] := mem[ch[i - 1]].(next := mem[ch[i]].next)] - {ch[i]}
  {
  }

  lemma {:induction false} SameAbsent<V>(mem: Cells<V>, same: (nat, nat) -> bool, hash: nat -> nat, k: nat, l: nat)
    requires Congruent(same, hash) && Absent(mem, same, k) && same(l, k)
    ensures Absent(mem, same, l)
  {
    forall p | p in mem ensures !same(mem[p].key, l) {
      EqualKeys(same, hash, l, k, mem[p].key);
      EqualKeys(same, hash, mem[p].key, l, l);
      EqualKeys(same, hash, mem[p].key, k, k);
    }
  }

  lemma {:induction false} AbsentTakes<V(!new)>(mem: Cells<V>, same: (nat, nat) -> bool, hash: nat -> nat, key: nat)
    requires Congruent(same, hash) && Absent(mem, same, key)
    ensures TakenOut(mem, mem, same, key)
  {
    hide Congruent, Absent;
    forall k: nat, w: V ensures Maps(mem, same, k, w) <==> !same(key, k) && Maps(mem, same, k, w) {
      EqualKeys(same, hash, key, k, k);
      if same(key, k) {
        SameAbsent(mem, same, hash, key, k);
        AbsentMeans(mem, same, k);
      }
    }
  }
}
