/** Primes, said with products; the reference that the four sieves are proved against. */
module Primes {

  ghost predicate Factors(i: int, j: int, n: int) {
    2 <= i && 2 <= j && i * j == n
  }

  ghost predicate Prime(n: int) {
    n >= 2 && !exists i, j :: Factors(i, j, n)
  }

  /** The primes up to n, in increasing order. */
  ghost function PrimesUpTo(n: int): seq<int>
    decreases n
  {
    if n < 2 then [] else PrimesUpTo(n - 1) + if Prime(n) then [n] else []
  }

  lemma ProductCommutes(i: int, j: int)
    ensures i * j == j * i
  {
  }

  lemma SquareBelow(i: int, j: int)
    requires 0 <= i <= j
    ensures i * i <= i * j && j * i <= j * j
  {
  }

  lemma Times(x: int, y: int, z: int)
    requires x >= 0 && y <= z
    ensures x * y <= x * z
  {
  }

  lemma ProductGrows(i: int, j: int)
    requires 2 <= i && 2 <= j
    ensures i < i * j && j < i * j
  {
    Times(i, 2, j);
    Times(j, 2, i);
    ProductCommutes(i, j);
  }

  lemma Associate(p: int, q: int, j: int)
    ensures p * q * j == p * (q * j)
  {
  }

  lemma EvenMultiple(d: int, m: int, b: int)
    requires m % 2 == 0
    ensures d * m != 2 * b + 1
  {
    assert d * m == 2 * (d * (m / 2));
  }

  lemma OddFactor(i: int, j: int, b: int)
    requires i * j == 2 * b + 1
    ensures i % 2 == 1 && j % 2 == 1
  {
    ProductCommutes(i, j);
    if i % 2 == 0 { EvenMultiple(j, i, b); }
    if j % 2 == 0 { EvenMultiple(i, j, b); }
  }

  lemma Even(x: int, y: int)
    ensures (2 * x) * y == 2 * (x * y)
  {
  }

  lemma Squeeze(d: nat, m: int, m': int)
    requires d > 0 && d * m < d * m' < d * m + 2 * d
    ensures m' == m + 1
  {
    if m' <= m { Times(d, m', m); }
    if m' >= m + 2 { Times(d, m + 2, m'); }
  }

  /** Every composite number has a prime factor that is at most its square root. */
  lemma {:induction false} PrimeFactor(n: int) returns (p: int, q: int)
    requires n >= 2 && !Prime(n)
    ensures Prime(p) && p <= q && Factors(p, q, n) && p * p <= n
    decreases n
  {
    var i, j :| Factors(i, j, n);
    ProductCommutes(i, j);
    if i > j { i, j := j, i; }
    SquareBelow(i, j);
    if Prime(i) {
      p, q := i, j;
    } else {
      ProductGrows(i, j);
      p, q := PrimeFactor(i);
      Associate(p, q, j);
      Times(q, 1, j);
      q := q * j;
    }
  }

  lemma {:induction false} PrimesListed(n: int)
    ensures forall p :: p in PrimesUpTo(n) <==> Prime(p) && p <= n
    ensures forall i, j :: 0 <= i < j < |PrimesUpTo(n)| ==> PrimesUpTo(n)[i] < PrimesUpTo(n)[j]
    decreases n
  {
    if n < 2 {
    } else {
      PrimesListed(n - 1);
      var fewer := PrimesUpTo(n - 1);
      assert forall i :: 0 <= i < |fewer| ==> fewer[i] in fewer;
    }
  }
}
