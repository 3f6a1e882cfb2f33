/**
 * Two sieves over one truth value per number: benchmark/prime_numpy.py, which strikes out from
 * n*n on for every survivor up to the square root, and benchmark/seive2.py, which strikes out
 * from 2*n on for every survivor.
 */
module ArraySieves {
  import opened Primes

  ghost predicate Quotient(n: int, q: int, i: int) {
    n * q == i
  }

  /** i is q times n for some q of at least `from`. */
  ghost predicate MultipleFrom(n: int, from: int, i: int) {
    exists q :: q >= from && Quotient(n, q, i)
  }

  lemma NoneBetween(n: int, m: int, i: int, from: int)
    requires n >= 1 && n * m < i < n * m + n
    ensures !MultipleFrom(n, from, i)
  {
    assert n * (m + 1) == n * m + n;
    if q :| q >= from && Quotient(n, q, i) {
      if q <= m { Times(n, q, m); }
      if q >= m + 1 { Times(n, m + 1, q); }
      assert false;
    }
  }

  lemma NotBelow(n: int, from: int, i: int)
    requires n >= 1 && i < n * from
    ensures !MultipleFrom(n, from, i)
  {
    if q :| q >= from && Quotient(n, q, i) {
      Times(n, from, q);
      assert false;
    }
  }

  /** The elements n*from, n*from + n, n*from + 2*n, ... become false. */
  method MarkOff(sieve: array<bool>, n: int, from: int)
    requires n >= 1 && n * from >= 0
    modifies sieve
    ensures forall i :: 0 <= i < sieve.Length ==> (sieve[i] <==> old(sieve[i]) && !MultipleFrom(n, from, i))
  {
    var i := n * from;
    ghost var m := from;
    forall k | 0 <= k < i && k < sieve.Length
      ensures !MultipleFrom(n, from, k)
    {
      NotBelow(n, from, k);
    }
    while i < sieve.Length
      invariant i == n * m && m >= from && i >= 0
      invariant forall k :: 0 <= k < sieve.Length ==>
        (sieve[k] <==> old(sieve[k]) && !(k < i && MultipleFrom(n, from, k)))
      decreases sieve.Length - i
    {
      assert Quotient(n, m, i);
      forall k | i < k < i + n
        ensures !MultipleFrom(n, from, k)
      {
        NoneBetween(n, m, k, from);
      }
      sieve[i] := false;
      assert n * (m + 1) == n * m + n;
      i, m := i + n, m + 1;
    }
  }

  // ------------------------------------------------------------------ prime_numpy.py

  ghost predicate Ordered(p: int, q: int, i: int) {
    2 <= p <= q && p * q == i
  }

  /** i is a product whose smaller factor is below n. */
  ghost predicate SmallFactor(n: int, i: int) {
    exists p, q :: Ordered(p, q, i) && p < n
  }

  lemma SmallFactorNext(n: int, i: int)
    requires n >= 2
    ensures SmallFactor(n + 1, i) <==> SmallFactor(n, i) || MultipleFrom(n, n, i)
  {
    if SmallFactor(n + 1, i) {
      var p, q :| Ordered(p, q, i) && p < n + 1;
      if p == n { assert Quotient(n, q, i); }
    }
    if q :| q >= n && Quotient(n, q, i) { assert Ordered(n, q, i); }
  }

  lemma CompositeDone(n: int, i: int)
    requires n >= 2 && SmallFactor(n, n) && MultipleFrom(n, n, i)
    ensures SmallFactor(n, i)
  {
    var p, q :| Ordered(p, q, n) && p < n;
    var r :| r >= n && Quotient(n, r, i);
    Associate(p, q, r);
    Times(q, 1, r);
    assert Ordered(p, q * r, i);
  }

  lemma RootSuffices(stop: int, i: int)
    requires i >= 2 && stop * stop > i && stop >= 1
    ensures SmallFactor(stop, i) <==> !Prime(i)
  {
    if SmallFactor(stop, i) {
      var p, q :| Ordered(p, q, i) && p < stop;
      assert Factors(p, q, i);
    }
    if !Prime(i) {
      var p, q := PrimeFactor(i);
      assert Ordered(p, q, i);
      if p >= stop { SquareBelow(stop, p); }
    }
  }

  /** Those of the numbers low, ..., 1 that index the array. */
  function Leading(low: nat, length: nat): seq<int>
    requires low <= 1
  {
    (if low == 0 && length >= 1 then [0] else []) + (if length >= 2 then [1] else [])
  }

  /** The indices from low on whose element is true. */
  method Survivors(sieve: array<bool>, low: nat) returns (r: seq<int>)
    requires low <= 1 && forall i :: low <= i < 2 && i < sieve.Length ==> sieve[i]
    requires forall i :: 2 <= i < sieve.Length ==> (sieve[i] <==> Prime(i))
    ensures r == Leading(low, sieve.Length) + PrimesUpTo(sieve.Length - 1)
  {
    r := [];
    var i := low;
    while i < sieve.Length
      invariant low <= i && (i <= sieve.Length || i == low)
      invariant r == if i == low then [] else Leading(low, i) + PrimesUpTo(i - 1)
    {
      if sieve[i] { r := r + [i]; }
      i := i + 1;
    }
  }

  /**
   * The stop value int(limit**0.5 + 1.5), rounded or not, is beyond the root and within the
   * array; nothing more is asked of it.
   */
  predicate GoodStop(limit: nat, stop: int) {
    stop >= 1 && stop * stop > limit && (stop <= limit + 1 || stop <= 2)
  }

  /** The stop value without rounding: the largest integer that is at most sqrt(limit) + 3/2. */
  lemma ExactStopIsGood(limit: nat, stop: int)
    requires stop >= 1 && 4 * limit < (2 * stop - 1) * (2 * stop - 1)
    requires stop >= 2 ==> (2 * stop - 3) * (2 * stop - 3) <= 4 * limit
    ensures GoodStop(limit, stop)
  {
    assert (2 * stop - 1) * (2 * stop - 1) == 4 * (stop * stop) - 4 * stop + 1;
    assert (2 * limit + 1) * (2 * limit + 1) == 4 * (limit * limit) + 4 * limit + 1;
    if stop >= limit + 2 { SquareBelow(2 * limit + 1, 2 * stop - 3); }
  }

  lemma NoFactors(n: int, i: int)
    requires i < 2
    ensures !SmallFactor(n, i)
  {
    if p, q :| Ordered(p, q, i) && p < n {
      ProductGrows(p, q);
      assert false;
    }
  }

  /** primes_upto2: the array's true indices without 0 and 1 are the primes up to the limit. */
  method PrimesUpto2(limit: nat, stop: int) returns (r: seq<int>)
    requires GoodStop(limit, stop)
    ensures r == PrimesUpTo(limit)
  {
    var isPrime := new bool[limit + 1](_ => true);
    forall i | 0 <= i <= limit
      ensures !SmallFactor(2, i)
    {
    }
    var n := 2;
    while n < stop
      invariant 2 <= n && (n <= stop || n == 2)
      invariant forall i :: 0 <= i <= limit ==> (isPrime[i] <==> !SmallFactor(n, i))
    {
      forall i | 0 <= i <= limit
        ensures SmallFactor(n + 1, i) <==> SmallFactor(n, i) || MultipleFrom(n, n, i)
        ensures SmallFactor(n, n) && MultipleFrom(n, n, i) ==> SmallFactor(n, i)
      {
        SmallFactorNext(n, i);
        if SmallFactor(n, n) && MultipleFrom(n, n, i) { CompositeDone(n, i); }
      }
      if isPrime[n] {
        MarkOff(isPrime, n, n);
      }
      n := n + 1;
    }
    forall i | 2 <= i <= limit
      ensures isPrime[i] <==> Prime(i)
    {
      if n > stop { SquareBelow(stop, n); }
      RootSuffices(n, i);
    }
    forall i | 0 <= i < 2 && i <= limit
      ensures !SmallFactor(n, i)
    {
      NoFactors(n, i);
    }
    var nonzero := Survivors(isPrime, 0);
    r := if |nonzero| >= 2 then nonzero[2..] else [];
  }

  // ------------------------------------------------------------------ seive2.py

  /** i is a proper multiple of a number from 2 up to n-1. */
  ghost predicate AnyFactor(n: int, i: int) {
    exists p, q :: Factors(p, q, i) && p < n
  }

  lemma AnyFactorNext(n: int, i: int)
    requires n >= 2
    ensures AnyFactor(n + 1, i) <==> AnyFactor(n, i) || MultipleFrom(n, 2, i)
  {
    if AnyFactor(n + 1, i) {
      var p, q :| Factors(p, q, i) && p < n + 1;
      if p == n { assert Quotient(n, q, i); }
    }
    if q :| q >= 2 && Quotient(n, q, i) { assert Factors(n, q, i); }
  }

  lemma MultipleDone(n: int, i: int)
    requires n >= 2 && AnyFactor(n, n) && MultipleFrom(n, 2, i)
    ensures AnyFactor(n, i)
  {
    var p, q :| Factors(p, q, n) && p < n;
    var r :| r >= 2 && Quotient(n, r, i);
    Associate(p, q, r);
    Times(q, 1, r);
    assert Factors(p, q * r, i);
  }

  lemma AllFactors(n: int, i: int)
    requires 2 <= i < n
    ensures AnyFactor(n, i) <==> !Prime(i)
  {
    if p, q :| Factors(p, q, i) { ProductGrows(p, q); }
  }

  lemma OneHasNoFactors(n: int)
    ensures !AnyFactor(n, 1)
  {
    if p, q :| Factors(p, q, 1) && p < n {
      ProductGrows(p, q);
      assert false;
    }
  }

  /** For every n, also where no number is in range, the list begins with 1 and goes on with the primes up to n. */
  method Eratosthenes(n: int) returns (r: seq<int>)
    ensures n >= 1 ==> r == [1] + PrimesUpTo(n)
    ensures n < 1 ==> r == []
  {
    var sieve := new bool[if n >= 0 then n + 1 else 0](_ => true);
    forall i
      ensures !AnyFactor(2, i) && (AnyFactor(3, i) <==> MultipleFrom(2, 2, i))
    {
      AnyFactorNext(2, i);
    }
    MarkOff(sieve, 2, 2);
    var i := 3;
    while i < n + 1
      invariant 3 <= i && (i <= n + 1 || i == 3)
      invariant forall k :: 0 <= k < sieve.Length ==> (sieve[k] <==> !AnyFactor(i, k))
    {
      forall k | 0 <= k < sieve.Length
        ensures AnyFactor(i + 1, k) <==> AnyFactor(i, k) || MultipleFrom(i, 2, k)
        ensures AnyFactor(i, i) && MultipleFrom(i, 2, k) ==> AnyFactor(i, k)
      {
        AnyFactorNext(i, k);
        if AnyFactor(i, i) && MultipleFrom(i, 2, k) { MultipleDone(i, k); }
      }
      if sieve[i] {
        MarkOff(sieve, i, 2);
      }
      i := i + 1;
    }
    forall k | 2 <= k < sieve.Length
      ensures sieve[k] <==> Prime(k)
    {
      AllFactors(i, k);
    }
    if n < 1 {
      return [];
    }
    OneHasNoFactors(i);
    r := Survivors(sieve, 1);
  }
}
