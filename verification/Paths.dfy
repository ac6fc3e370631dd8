/** Paths: their elements, parent and last component. */
module Paths {
  import opened Bytes
  import opened Dirents

  type Path = seq<byte>

  const SLASH: byte := 47

  datatype Option<T> = None | Some(value: T)

  /** Index of the first slash from i on, or the length. */
  function Slash(p: Path, i: nat): (r: nat)
    requires i <= |p|
    ensures i <= r <= |p| && (r < |p| ==> p[r] == SLASH)
    ensures forall j :: i <= j < r ==> p[j] != SLASH
    decreases |p| - i
  {
    if i == |p| || p[i] == SLASH then i else Slash(p, i + 1)
  }

  /** Index of the first byte from i on that is not a slash, or the length. */
  function Skip(p: Path, i: nat): (r: nat)
    requires i <= |p|
    ensures i <= r <= |p| && (r < |p| ==> p[r] != SLASH)
    ensures forall j :: i <= j < r ==> p[j] == SLASH
    decreases |p| - i
  {
    if i == |p| || p[i] != SLASH then i else Skip(p, i + 1)
  }

  /** The names between runs of slashes. */
  function Elements(p: Path): seq<Name>
    decreases |p|
  {
    if p == [] then [] else
      var i := Slash(p, 0);
      if i == |p| then [p] else [p[..i]] + Elements(p[Skip(p, i)..])
  }

  /** vfs_path_element: the first element, and the rest of the path behind the slashes. */
  method PathElement(src: Path) returns (dst: Name, rest: Option<Path>)
    ensures src != [] ==>
              Elements(src) == [dst] + (match rest case None => [] case Some(r) => Elements(r))
    ensures rest.Some? ==> rest.value != [] && rest.value[0] != SLASH && |rest.value| < |src|
    ensures dst == src[..Slash(src, 0)]
  {
    var sep := 0;
    while sep < |src| && src[sep] != SLASH
      invariant sep <= |src| && Slash(src, 0) == Slash(src, sep)
    {
      sep := sep + 1;
    }
    if sep == |src| {
      return src, None;
    }
    dst := src[..sep];
    ghost var first := sep;
    while sep < |src| && src[sep] == SLASH
      invariant first <= sep <= |src| && Skip(src, first) == Skip(src, sep)
      invariant sep == first ==> sep < |src| && src[sep] == SLASH
    {
      sep := sep + 1;
    }
    rest := if sep == |src| then None else Some(src[sep..]);
  }

  /** Index behind the last slash; 0 if there is none. */
  function BaseAt(p: Path): (r: nat)
    ensures r <= |p| && (r > 0 ==> p[r - 1] == SLASH)
    ensures forall j :: r <= j < |p| ==> p[j] != SLASH
  {
    if p == [] then 0 else if p[|p| - 1] == SLASH then |p| else BaseAt(p[..|p| - 1])
  }

  /** vfs_path_basename */
  function Basename(p: Path): Name {
    p[BaseAt(p)..]
  }

  /** vfs_path_parent */
  function Parent(p: Path): Path {
    if BaseAt(p) == 0 then [] else p[..BaseAt(p) - 1]
  }

  lemma {:induction false} ParentAndBase(p: Path)
    ensures BaseAt(p) > 0 ==> p == Parent(p) + [SLASH] + Basename(p)
    ensures BaseAt(p) == 0 ==> p == Basename(p)
    ensures SLASH !in Basename(p)
  {
  }

  lemma {:induction false} SlashConcat(p: Path, q: Path)
    ensures Slash(p + [SLASH] + q, 0) == Slash(p, 0)
  {
    SlashPrefix(p, [SLASH] + q, 0);
    assert p + [SLASH] + q == p + ([SLASH] + q);
  }

  lemma {:induction false} SlashPrefix(p: Path, q: Path, i: nat)
    requires i <= |p| && q != [] && q[0] == SLASH
    ensures Slash(p + q, i) == Slash(p, i)
    decreases |p| - i
  {
    if i < |p| && p[i] != SLASH {
      SlashPrefix(p, q, i + 1);
    }
  }

  lemma {:induction false} SkipPrefix(p: Path, q: Path, i: nat)
    requires i <= |p| && Skip(p, i) < |p|
    ensures Skip(p + q, i) == Skip(p, i)
    decreases |p| - i
  {
    if p[i] == SLASH {
      SkipPrefix(p, q, i + 1);
    }
  }

  lemma {:induction false} SkipAll(p: Path, q: Path, i: nat)
    requires i <= |p| && Skip(p, i) == |p|
    ensures Skip(p + q, i) == |p| + Skip(q, 0)
    decreases |p| - i
  {
    if i < |p| {
      SkipAll(p, q, i + 1);
    } else {
      SkipShift(p, q, 0);
    }
  }

  lemma {:induction false} SkipShift(p: Path, q: Path, i: nat)
    requires i <= |q|
    ensures Skip(p + q, |p| + i) == |p| + Skip(q, i)
    decreases |q| - i
  {
    if i < |q| && q[i] == SLASH {
      SkipShift(p, q, i + 1);
    }
  }

  lemma {:induction false} ElementsAt(p: Path)
    requires Slash(p, 0) < |p|
    ensures Elements(p) == [p[..Slash(p, 0)]] + Elements(p[Skip(p, Slash(p, 0))..])
  {
    hide Slash, Skip;
  }

  lemma {:induction false} ElementsEnd(p: Path)
    requires p != [] && Slash(p, 0) == |p|
    ensures Elements(p) == [p]
  {
    hide Slash, Skip;
  }

  lemma {:induction false} NoElements(p: Path)
    ensures p[|p|..] == [] && Elements([]) == []
  {
  }

  // What is behind the first element of p + "/" + q.

  lemma {:induction false} SlashesBehind(p: Path, q: Path, i: nat)
    requires i <= |p| && Skip(p, i) == |p|
    ensures var r := p + [SLASH] + q; r[Skip(r, i)..] == Stripped(q)
  {
    hide Skip;
    var r := p + [SLASH] + q;
    assert r == p + ([SLASH] + q);
    SkipAll(p, [SLASH] + q, i);
    SkipOne(q);
  }

  lemma {:induction false} MoreBehind(p: Path, q: Path, i: nat)
    requires i <= |p| && Skip(p, i) < |p|
    ensures var r := p + [SLASH] + q;
            r[Skip(r, i)..] == p[Skip(p, i)..] + [SLASH] + q
  {
    hide Skip;
    var r := p + [SLASH] + q;
    assert r == p + ([SLASH] + q);
    SkipPrefix(p, [SLASH] + q, i);
  }

  lemma {:induction false} SkipOne(q: Path)
    ensures Skip([SLASH] + q, 0) == 1 + Skip(q, 0)
  {
    SkipShift([SLASH], q, 0);
  }

  lemma {:induction false} SkipEnd(p: Path)
    ensures Skip(p, |p|) == |p|
  {
  }

  /** The path without leading slashes. */
  function Stripped(p: Path): (r: Path)
    ensures r != [] ==> r[0] != SLASH
  {
    p[Skip(p, 0)..]
  }

  lemma {:induction false} ElementsJoin(p: Path, q: Path)
    requires p != [] && p[0] != SLASH
    ensures Elements(p + [SLASH] + q) == Elements(p) + Elements(Stripped(q))
    decreases |p|
  {
    hide Skip, Slash, Elements, Stripped;
    var r := p + [SLASH] + q;
    var i := Slash(p, 0);
    SlashConcat(p, q);
    ElementsAt(r);
    assert r == p + ([SLASH] + q) && r[..i] == p[..i];
    if i == |p| {
      ElementsEnd(p);
      SkipEnd(p);
      SlashesBehind(p, q, i);
    } else if Skip(p, i) < |p| {
      ElementsJoin(p[Skip(p, i)..], q);
      MoreBehind(p, q, i);
      ElementsAt(p);
    } else {
      NoElements(p);
      SlashesBehind(p, q, i);
      ElementsAt(p);
    }
  }

  /** The elements of two paths put together with a slash are those of the first and then
      those of the second. */
  lemma {:induction false} ElementsConcat(p: Path, q: Path)
    ensures Elements(Stripped(p + [SLASH] + q)) == Elements(Stripped(p)) + Elements(Stripped(q))
  {
    hide Elements, Stripped, Skip;
    NoElements(p);
    if Skip(p, 0) < |p| {
      StrippedPrefix(p, q);
      ElementsJoin(Stripped(p), q);
    } else {
      StrippedAll(p, q);
    }
  }

  lemma {:induction false} StrippedPrefix(p: Path, q: Path)
    requires Skip(p, 0) < |p|
    ensures Stripped(p + [SLASH] + q) == Stripped(p) + [SLASH] + q && Stripped(p) != []
  {
    MoreBehind(p, q, 0);
  }

  lemma {:induction false} StrippedAll(p: Path, q: Path)
    requires Skip(p, 0) == |p|
    ensures Stripped(p + [SLASH] + q) == Stripped(q) && Stripped(p) == []
  {
    SlashesBehind(p, q, 0);
  }

  /** A path without slashes is its one element. */
  lemma {:induction false} BaseElements(base: Name)
    requires SLASH !in base
    ensures Stripped(base) == base && Elements(base) == if base == [] then [] else [base]
  {
    if base != [] {
      forall j | 0 <= j < |base| ensures base[j] != SLASH {
        assert base[j] in base;
      }
    }
  }

  /** The elements of a path are those of its parent and then the last component, if that
      is not empty. */
  lemma {:induction false} ElementsOfParent(p: Path)
    ensures Elements(Stripped(p)) == Elements(Stripped(Parent(p))) + if Basename(p) == [] then [] else [Basename(p)]
  {
    hide Elements, Stripped, Basename, Parent, BaseAt;
    ParentAndBase(p);
    BaseElements(Basename(p));
    if BaseAt(p) > 0 {
      ElementsConcat(Parent(p), Basename(p));
    } else {
      NoParent(p);
    }
  }

  lemma {:induction false} NoParent(p: Path)
    requires BaseAt(p) == 0
    ensures Elements(Stripped(Parent(p))) == []
  {
  }

  lemma {:induction false} RelativeStripped(p: Path)
    requires p == [] || p[0] != SLASH
    ensures Stripped(p) == p && Stripped(Parent(p)) == Parent(p)
  {
  }
}
