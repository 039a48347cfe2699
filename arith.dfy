/** The unsigned arithmetic of record offsets and counts.

    Products of two variables are written `Mul(a, b)` and the `size_t`
    division and remainder of C++ are written `Quotient(x, m)` and
    `Remainder(x, m)`. They are defined by repeated addition and
    subtraction, and their properties are proved once here, so that the
    proofs about the reader stay within linear arithmetic.
    `MulIsProduct` and `QuotientIsDivision` tie them to `*`, `/` and `%`. */
module Arith {

  /** `a * b`, by repeated addition. */
  function Mul(a: nat, b: nat): nat
  {
    if a == 0 then 0 else Mul(a - 1, b) + b
  }

  /** `x / m` for unsigned `x` and a positive `m`: the number of whole `m`s
      in `x`. */
  function Quotient(x: nat, m: nat): (q: nat)
    requires m > 0
    ensures Mul(q, m) <= x < Mul(q, m) + m
    decreases x
  {
    if x < m then 0 else 1 + Quotient(x - m, m)
  }

  /** `x % m` for unsigned `x` and a positive `m`: what is left of `x` after
      its whole `m`s. */
  function Remainder(x: nat, m: nat): (r: nat)
    requires m > 0
    ensures r < m && x == Mul(Quotient(x, m), m) + r
  {
    x - Mul(Quotient(x, m), m)
  }

  lemma {:induction false} MulIsProduct(a: nat, b: nat)
    ensures Mul(a, b) == a * b
  {
    if a > 0 {
      MulIsProduct(a - 1, b);
    }
  }

  /** The quotient and remainder are those of Dafny's (and, on naturals, of
      C++'s) `/` and `%`. */
  lemma QuotientIsDivision(x: nat, m: nat)
    requires m > 0
    ensures Quotient(x, m) == x / m && Remainder(x, m) == x % m
  {
    MulIsProduct(Quotient(x, m), m);
    MulIsProduct(x / m, m);
    DivModUnique(x, m, x / m, x % m);
  }

  lemma {:induction false} MulZeroRight(a: nat)
    ensures Mul(a, 0) == 0
  {
    if a > 0 {
      MulZeroRight(a - 1);
    }
  }

  lemma {:induction false} MulSuccRight(a: nat, b: nat)
    ensures Mul(a, 1 + b) == a + Mul(a, b)
  {
    if a > 0 {
      MulSuccRight(a - 1, b);
    }
  }

  lemma {:induction false} MulFour(a: nat, b: nat)
    ensures Mul(a, 4 * b) == 4 * Mul(a, b)
  {
    if a > 0 {
      MulFour(a - 1, b);
    }
  }

  lemma {:induction false} MulAdd(a: nat, b: nat, c: nat)
    ensures Mul(a + b, c) == Mul(a, c) + Mul(b, c)
  {
    if b > 0 {
      MulAdd(a, b - 1, c);
    }
  }

  lemma MulMono(a: nat, b: nat, c: nat)
    requires a <= b
    ensures Mul(a, c) <= Mul(b, c)
  {
    MulAdd(a, b - a, c);
  }

  /** `a < b` and the next multiple after `a`'s still fits below `b`'s. */
  lemma MulNext(a: nat, b: nat, c: nat)
    requires a < b
    ensures Mul(a, c) + c <= Mul(b, c)
  {
    MulMono(a + 1, b, c);
  }

  lemma MulCancel(a: nat, b: nat, c: nat)
    requires c > 0 && Mul(a, c) <= Mul(b, c)
    ensures a <= b
  {
    if b < a {
      MulNext(b, a, c);
    }
  }

  lemma MulLtCancel(a: nat, b: nat, c: nat)
    requires Mul(a, c) < Mul(b, c)
    ensures a < b
  {
    if b <= a {
      MulMono(b, a, c);
    }
  }

  /** Taking `c` whole `m`s off the larger product leaves `(q - c)` of them. */
  lemma MulSub(q: nat, c: nat, m: nat)
    requires c <= q
    ensures Mul(c, m) <= Mul(q, m) && Mul(q, m) - Mul(c, m) == Mul(q - c, m)
  {
    var d := q - c;
    MulAdd(c, d, m);
    assert c + d == q;
  }

  /** `j` whole `m`s fit in `x` exactly when `j` is at most their quotient. */
  lemma MulFits(j: nat, x: nat, m: nat)
    requires m > 0
    ensures j <= Quotient(x, m) <==> Mul(j, m) <= x
  {
    if j <= Quotient(x, m) {
      MulMono(j, Quotient(x, m), m);
    } else {
      MulNext(Quotient(x, m), j, m);
    }
  }

  /** A multiple of `m` divides evenly, back to its factor. */
  lemma MulMultiple(a: nat, m: nat)
    requires m > 0
    ensures Quotient(Mul(a, m), m) == a && Remainder(Mul(a, m), m) == 0
  {
    DivModUnique(Mul(a, m), m, a, 0);
  }

  /** Taking `c` whole `m`s off `x` lowers the quotient by `c` and keeps the
      remainder. */
  lemma RemainderAfter(x: nat, m: nat, c: nat)
    requires m > 0 && c <= Quotient(x, m)
    ensures Mul(c, m) <= x
    ensures Quotient(x - Mul(c, m), m) == Quotient(x, m) - c
    ensures Remainder(x - Mul(c, m), m) == Remainder(x, m)
  {
    var q, r := Quotient(x, m), Remainder(x, m);
    MulSub(q, c, m);
    assert x - Mul(c, m) == Mul(q - c, m) + r;
    DivModUnique(x - Mul(c, m), m, q - c, r);
  }

  /** When `m` divides `x`, the `m`s after the first `c` of them fill the
      rest of `x` exactly. */
  lemma ExactRest(x: nat, m: nat, q: nat, c: nat)
    requires m > 0 && q == Quotient(x, m) && c <= q && Remainder(x, m) == 0
    ensures x == Mul(c, m) + Mul(q - c, m)
  {
    MulSub(q, c, m);
  }

  /** Asking for `count` more `m`s after `c` of them, when fewer remain,
      overruns `x`; what remains is `Quotient(x, m) - c` of them and the old
      remainder. */
  lemma Overrun(x: nat, m: nat, c: nat, count: nat)
    requires m > 0 && c <= Quotient(x, m) < c + count
    ensures Mul(c, m) <= x < Mul(c, m) + Mul(count, m)
    ensures Quotient(x - Mul(c, m), m) == Quotient(x, m) - c
    ensures Remainder(x - Mul(c, m), m) == Remainder(x, m)
  {
    MulFits(c + count, x, m);
    MulAdd(c, count, m);
    RemainderAfter(x, m, c);
  }

  /** Division by a positive `m` is determined by quotient and remainder. */
  lemma DivModUnique(x: nat, m: nat, q: nat, r: nat)
    requires m > 0 && x == Mul(q, m) + r && r < m
    ensures Quotient(x, m) == q && Remainder(x, m) == r
  {
    var q' := Quotient(x, m);
    if q' < q {
      MulNext(q', q, m);
    } else if q < q' {
      MulNext(q, q', m);
    }
  }
}
