/** Products and quotients of two variables, behind recursive definitions: proofs that
    only carry them around stay linear, and the lemmas here give their arithmetic. */
module Arith {
  function Times(a: nat, b: nat): nat {
    if a == 0 then 0 else b + Times(a - 1, b)
  }

  function Quot(a: nat, d: nat): nat
    requires d > 0
  {
    if a < d then 0 else 1 + Quot(a - d, d)
  }

  function Rem(a: nat, d: nat): (r: nat)
    requires d > 0
    ensures r < d
  {
    if a < d then a else Rem(a - d, d)
  }

  /** (a + d - 1) / d, the number of d-sized pieces that cover a. */
  function CeilDiv(a: nat, d: nat): nat
    requires d > 0
  {
    Quot(a + d - 1, d)
  }

  lemma {:induction false} TimesIsProduct(a: nat, b: nat)
    ensures Times(a, b) == a * b
  {
    if a > 0 {
      TimesIsProduct(a - 1, b);
    }
  }

  lemma {:induction false} QuotIsDivision(a: nat, d: nat)
    requires d > 0
    ensures Quot(a, d) == a / d && Rem(a, d) == a % d
  {
    TimesIsProduct(a / d, d);
    DivUnique(a, a / d, a % d, d);
  }

  lemma {:induction false} TimesAdd(a: nat, b: nat, c: nat)
    ensures Times(a + b, c) == Times(a, c) + Times(b, c)
  {
    TimesIsProduct(a + b, c);
    TimesIsProduct(a, c);
    TimesIsProduct(b, c);
  }

  lemma {:induction false} TimesOne(a: nat)
    ensures Times(1, a) == a == Times(a, 1)
  {
    assert Times(1, a) == a + Times(0, a);
    TimesIsProduct(a, 1);
  }

  lemma {:induction false} TimesMono(a: nat, b: nat, c: nat)
    requires a <= b
    ensures Times(a, c) <= Times(b, c)
  {
    TimesAdd(a, b - a, c);
  }

  lemma {:induction false} TimesGrows(a: nat, b: nat, c: nat)
    requires b <= c
    ensures Times(a, b) <= Times(a, c)
  {
    if a > 0 {
      TimesGrows(a - 1, b, c);
    }
  }

  lemma {:induction false} DivSplit(a: nat, d: nat)
    requires d > 0
    ensures a == Times(Quot(a, d), d) + Rem(a, d)
  {
    if a >= d {
      DivSplit(a - d, d);
    }
  }

  /** Euclidean division is unique. */
  lemma {:induction false} DivUnique(a: nat, q: nat, r: nat, d: nat)
    requires a == Times(q, d) + r && r < d
    ensures Quot(a, d) == q && Rem(a, d) == r
  {
    if q > 0 {
      DivUnique(a - d, q - 1, r, d);
    }
  }

  lemma {:induction false} DivBound(a: nat, n: nat, d: nat)
    requires d > 0
    ensures a < Times(n, d) <==> Quot(a, d) < n
  {
    DivSplit(a, d);
    if Quot(a, d) < n {
      TimesMono(Quot(a, d) + 1, n, d);
    } else {
      TimesMono(n, Quot(a, d), d);
    }
  }

  /** CeilDiv(a, d) is the least count of d-sized pieces that covers a. */
  lemma {:induction false} CeilBounds(a: nat, d: nat)
    requires d > 0
    ensures a <= Times(CeilDiv(a, d), d) < a + d
  {
    DivSplit(a + d - 1, d);
  }

  lemma {:induction false} CeilUnique(a: nat, n: nat, d: nat)
    requires d > 0 && a <= Times(n, d) < a + d
    ensures CeilDiv(a, d) == n
  {
    DivUnique(a + d - 1, n, a + d - 1 - Times(n, d), d);
  }

  lemma {:induction false} CeilMono(a: nat, b: nat, d: nat)
    requires d > 0 && a <= b
    ensures CeilDiv(a, d) <= CeilDiv(b, d)
  {
    CeilBounds(a, d);
    CeilBounds(b, d);
    if CeilDiv(b, d) < CeilDiv(a, d) {
      TimesMono(CeilDiv(b, d) + 1, CeilDiv(a, d), d);
    }
  }
}
