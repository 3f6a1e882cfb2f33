/**
 * benchmark/seive.py: a sieve over the list of odd numbers itself, whose struck entries
 * become 0. Looking for the next survivor runs off the list when there is none left; Python's
 * IndexError is the result None here.
 */
module SeivePy {
  import opened Primes
  import opened Options

  ghost predicate Divides(p: int, q: int, v: int) {
    q >= 1 && p * q == v
  }

  /** v has a factor from 3 up to m-1, itself included. */
  ghost predicate Struck(v: int, m: int) {
    exists p, q :: Divides(p, q, v) && 3 <= p < m
  }

  /** The number that belongs at index i. */
  function NumberAt(i: int): int {
    2 * i + 3
  }

  /** Every entry is its number, or 0 if the numbers below m strike that out. */
  ghost predicate Sieved(s: seq<int>, m: int) {
    forall i :: 0 <= i < |s| ==> s[i] == if Struck(NumberAt(i), m) then 0 else NumberAt(i)
  }

  lemma Transfer(p: int, q: int, v: int, m: int)
    requires Divides(p, q, v) && Struck(p, m)
    ensures Struck(v, m)
  {
    var a, b :| Divides(a, b, p) && 3 <= a < m;
    Associate(a, b, q);
    Times(b, 1, q);
    assert Divides(a, b * q, v);
  }

  lemma StruckEarlier(s: seq<int>, m: int, p: int, q: int, v: int)
    requires Sieved(s, m) && 3 <= p < NumberAt(|s|) && p % 2 == 1 && Divides(p, q, v)
    requires s[(p - 3) / 2] == 0
    ensures Struck(v, m)
  {
    assert NumberAt((p - 3) / 2) == p;
    Transfer(p, q, v, m);
  }

  lemma StruckAlready(s: seq<int>, m: int, m': int, i: nat)
    requires 3 <= m <= m' <= NumberAt(|s|) && Sieved(s, m) && Struck(NumberAt(i), m')
    requires forall k :: 0 <= k < |s| && m <= NumberAt(k) < m' ==> s[k] == 0
    ensures Struck(NumberAt(i), m)
  {
    var p, q :| Divides(p, q, NumberAt(i)) && 3 <= p < m';
    OddFactor(p, q, i + 1);
    if p >= m {
      assert NumberAt((p - 3) / 2) == p;
      StruckEarlier(s, m, p, q, NumberAt(i));
    }
  }

  /** Numbers that are struck out themselves strike out nothing new. */
  lemma StruckSkip(s: seq<int>, m: int, m': int)
    requires 3 <= m <= m' <= NumberAt(|s|) && Sieved(s, m)
    requires forall i :: 0 <= i < |s| && m <= NumberAt(i) < m' ==> s[i] == 0
    ensures Sieved(s, m')
  {
    forall i | 0 <= i < |s|
      ensures Struck(NumberAt(i), m') <==> Struck(NumberAt(i), m)
    {
      if Struck(NumberAt(i), m') { StruckAlready(s, m, m', i); }
    }
  }

  lemma SurvivorIsPrime(i: nat, m: int)
    requires m >= 3 && !Struck(NumberAt(i), m) && m * m > NumberAt(i)
    ensures Prime(NumberAt(i))
  {
    var v := NumberAt(i);
    if !Prime(v) {
      var p, q := PrimeFactor(v);
      OddFactor(p, q, i + 1);
      if p >= m { SquareBelow(m, p); }
      assert Divides(p, q, v);
    }
  }

  lemma PrimeSurvives(i: nat, m: int)
    requires Prime(NumberAt(i)) && NumberAt(i) >= m
    ensures !Struck(NumberAt(i), m)
  {
    forall p, q | Divides(p, q, NumberAt(i)) && 3 <= p < m
      ensures Factors(p, q, NumberAt(i))
    {
    }
  }

  /** A number below m strikes itself out. */
  lemma BelowIsStruck(i: nat, m: int)
    requires NumberAt(i) < m
    ensures Struck(NumberAt(i), m)
  {
    assert Divides(NumberAt(i), 1, NumberAt(i));
  }

  lemma SquareAbove(m: int)
    requires m >= 2
    ensures m * m > m
  {
  }

  lemma NoPrimeLeft(s: seq<int>, m: int, p: int)
    requires 3 <= m <= p < NumberAt(|s|) && Sieved(s, m) && (p % 2 == 1 ==> s[(p - 3) / 2] == 0)
    ensures !Prime(p)
  {
    if p % 2 == 0 {
      assert Factors(2, p / 2, p);
    } else {
      var k := (p - 3) / 2;
      assert NumberAt(k) == p;
      if Prime(p) { PrimeSurvives(k, m); }
    }
  }

  lemma {:induction false} NoPrimesBetween(s: seq<int>, m: int, v: int)
    requires 3 <= m <= v + 1 && v < NumberAt(|s|) && Sieved(s, m)
    requires forall k :: 0 <= k < |s| && m <= NumberAt(k) <= v ==> s[k] == 0
    ensures PrimesUpTo(v) == PrimesUpTo(m - 1)
    decreases v
  {
    if v == m - 1 {
    } else {
      NoPrimesBetween(s, m, v - 1);
      assert v % 2 == 1 ==> NumberAt((v - 3) / 2) == v;
      NoPrimeLeft(s, m, v);
    }
  }

  /** The first number that is not struck out is prime, and the next prime. */
  lemma NextPrime(s: seq<int>, i: nat, m: int, m': int)
    requires 3 <= m <= m' && i < |s| && m' == NumberAt(i) && Sieved(s, m') && s[i] != 0
    requires forall k :: 0 <= k < |s| && m <= NumberAt(k) < m' ==> s[k] == 0
    requires Sieved(s, m)
    ensures Prime(m') && PrimesUpTo(m' - 1) == PrimesUpTo(m - 1)
  {
    SquareAbove(m');
    SurvivorIsPrime(i, m');
    NoPrimesBetween(s, m, m' - 1);
  }

  // ------------------------------------------------------------------ striking out the multiples of m

  /** v is m times something at least as large, or m itself. */
  ghost predicate Hit(v: int, m: int) {
    v == m || exists q :: q >= m && Divides(m, q, v)
  }

  /** After m, the numbers below m+1 have struck out what those below m have, and what m hits. */
  lemma StruckNext(i: nat, m: int)
    requires m >= 3 && m % 2 == 1
    ensures Struck(NumberAt(i), m + 1) <==> Struck(NumberAt(i), m) || Hit(NumberAt(i), m)
  {
    var v := NumberAt(i);
    if p, q :| Divides(p, q, v) && 3 <= p < m + 1 {
      if p == m && q < m && q != 1 {
        OddFactor(p, q, i + 1);
        ProductCommutes(p, q);
        assert Divides(q, p, v);
      }
    }
    if Hit(v, m) {
      if v == m { assert Divides(m, 1, v); }
    }
  }

  /** Between m*q and m*(q+2), with m and q odd, there is no other odd multiple of m. */
  lemma HitNext(m: int, q: int, q': int, v: int, k: int)
    requires m >= 3 && m % 2 == 1 && Divides(m, q, v) && q % 2 == 1 && v < k < v + 2 * m && k % 2 == 1
    ensures !Divides(m, q', k)
  {
    if Divides(m, q', k) {
      Squeeze(m, q, q');
      EvenMultiple(m, q', (k - 1) / 2);
    }
  }

  lemma TwoMore(m: int, q: int)
    ensures m * (q + 2) == m * q + 2 * m
  {
  }

  ghost predicate MultipleFrom(v: int, m: int) {
    exists q :: q >= m && Divides(m, q, v)
  }

  /** In the middle of striking: multiples of m from its square up to below v are 0. */
  ghost predicate Striking(s: seq<int>, m: int, v: int) {
    forall i :: 0 <= i < |s| ==>
      s[i] == if Struck(NumberAt(i), m) || (NumberAt(i) < v && MultipleFrom(NumberAt(i), m)) then 0 else NumberAt(i)
  }

  lemma StrikeStarts(s: seq<int>, m: int)
    requires m >= 3 && Sieved(s, m)
    ensures Striking(s, m, m * m)
  {
    forall i | 0 <= i < |s| && NumberAt(i) < m * m
      ensures !MultipleFrom(NumberAt(i), m)
    {
      if q :| q >= m && Divides(m, q, NumberAt(i)) {
        Times(m, m, q);
        assert false;
      }
    }
  }

  lemma NoneBetween(m: int, q: int, ind: nat, i: nat)
    requires m >= 3 && m % 2 == 1 && q % 2 == 1 && Divides(m, q, NumberAt(ind)) && ind < i < ind + m
    ensures !MultipleFrom(NumberAt(i), m)
  {
    forall q'
      ensures !Divides(m, q', NumberAt(i))
    {
      HitNext(m, q, q', NumberAt(ind), NumberAt(i));
    }
  }

  lemma StrikeOne(s: seq<int>, m: int, q: int, ind: nat)
    requires m >= 3 && m % 2 == 1 && q >= m && q % 2 == 1 && ind < |s|
    requires Divides(m, q, NumberAt(ind)) && Striking(s, m, NumberAt(ind))
    ensures Striking(s[ind := 0], m, NumberAt(ind + m)) && Divides(m, q + 2, NumberAt(ind + m))
  {
    TwoMore(m, q);
    forall i | 0 <= i < |s| && ind < i < ind + m
      ensures !MultipleFrom(NumberAt(i), m)
    {
      NoneBetween(m, q, ind, i);
    }
  }

  /** The inner loop stands at index ind, the number m*q. */
  ghost predicate AtMultiple(s: seq<int>, m: int, q: int, ind: nat) {
    Divides(m, q, NumberAt(ind)) && q >= m && q % 2 == 1 && Striking(s, m, NumberAt(ind))
  }

  lemma StrikeStep(s: seq<int>, m: int, q: int, ind: nat, k: nat)
    requires m >= 3 && m % 2 == 1 && ind < |s| && AtMultiple(s, m, q, ind) && k < |s| && s[k] == m == NumberAt(k)
    ensures AtMultiple(s[ind := 0], m, q + 2, ind + m) && s[ind := 0][k] == m
  {
    StrikeOne(s, m, q, ind);
    Times(m, m, q);
    SquareAbove(m);
  }

  /** When all multiples are struck out and m itself too, the sieve stands for m+1. */
  lemma StrikeDone(s: seq<int>, m: int, v: int, k: nat)
    requires m >= 3 && m % 2 == 1 && v >= NumberAt(|s|) && Striking(s, m, v) && k < |s| && NumberAt(k) == m
    ensures Sieved(s[k := 0], m + 1)
  {
    forall i | 0 <= i < |s|
      ensures Struck(NumberAt(i), m + 1) <==> i == k || Struck(NumberAt(i), m) || MultipleFrom(NumberAt(i), m)
    {
      StruckNext(i, m);
    }
  }

  // ------------------------------------------------------------------ the program

  /** list.index: the first position of m. */
  function Index(s: seq<int>, m: int): (k: nat)
    ensures k <= |s| && (forall j :: 0 <= j < k ==> s[j] != m) && (k < |s| ==> s[k] == m)
  {
    if s == [] || s[0] == m then 0 else 1 + Index(s[1..], m)
  }

  /** Entries stay distinct as long as they are not 0, so the position of a survivor is known. */
  lemma IndexOfSurvivor(s: seq<int>, m: int, k: nat)
    requires k < |s| && s[k] == m == NumberAt(k)
    requires forall i :: 0 <= i < |s| ==> s[i] == 0 || s[i] == NumberAt(i)
    ensures Index(s, m) == k
  {
  }

  lemma HalvedProducts(m: int, h: int)
    requires m == 2 * h + 1
    ensures m * (m - 1) == 2 * (m * h) && m * m == 2 * (m * h) + m
  {
  }

  lemma StartOfMultiples(m: int)
    requires m % 2 == 1
    ensures NumberAt(m * (m - 1) / 2 + (m - 3) / 2) == m * m
  {
    HalvedProducts(m, (m - 1) / 2);
  }

  /** The survivors from index i on. */
  ghost function Rest(s: seq<int>, i: nat): seq<int>
    requires i <= |s|
    decreases |s| - i
  {
    if i == |s| then [] else (if s[i] != 0 then [s[i]] else []) + Rest(s, i + 1)
  }

  /** The primes go on with the number at index i, if that is one, and skip the even number after it. */
  lemma NextOddPrime(i: nat)
    ensures PrimesUpTo(NumberAt(i + 1) - 1) ==
      PrimesUpTo(NumberAt(i) - 1) + if Prime(NumberAt(i)) then [NumberAt(i)] else []
  {
    assert Factors(2, i + 2, NumberAt(i) + 1);
  }

  /** From m on, an entry that is not 0 is a prime, if m*m is beyond it. */
  lemma EntryIsPrime(s: seq<int>, i: nat, m: int)
    requires i < |s| && m >= 3 && Sieved(s, m) && m <= NumberAt(i) < m * m
    ensures if Prime(NumberAt(i)) then s[i] == NumberAt(i) else s[i] == 0
  {
    if s[i] != 0 {
      SurvivorIsPrime(i, m);
    } else if Prime(NumberAt(i)) {
      PrimeSurvives(i, m);
    }
  }

  lemma Longer(x: seq<int>, y: seq<int>, z: seq<int>)
    ensures x + y + z == x + (y + z)
  {
  }

  /** From index i on, exactly the entries of primes are not 0. */
  ghost predicate PrimesLeft(s: seq<int>, i: nat) {
    forall k :: i <= k < |s| ==> s[k] == if Prime(NumberAt(k)) then NumberAt(k) else 0
  }

  lemma SurvivorsArePrimes(s: seq<int>, i: nat, m: int)
    requires m >= 3 && Sieved(s, m) && m <= NumberAt(i) && NumberAt(|s| - 1) < m * m
    ensures PrimesLeft(s, i)
  {
    forall k | i <= k < |s|
      ensures s[k] == if Prime(NumberAt(k)) then NumberAt(k) else 0
    {
      EntryIsPrime(s, k, m);
    }
  }

  lemma {:induction false} RestIsPrimes(s: seq<int>, i: nat)
    requires i <= |s| && PrimesLeft(s, i)
    ensures PrimesUpTo(NumberAt(|s|) - 1) == PrimesUpTo(NumberAt(i) - 1) + Rest(s, i)
    decreases |s| - i
  {
    if i == |s| {
    } else {
      RestIsPrimes(s, i + 1);
      NextOddPrime(i);
      Longer(PrimesUpTo(NumberAt(i) - 1), if s[i] != 0 then [s[i]] else [], Rest(s, i + 1));
    }
  }

  lemma {:induction false} RestSkips(s: seq<int>, i: nat)
    requires i <= |s| && forall k :: 0 <= k < i ==> s[k] == 0
    ensures Rest(s, 0) == Rest(s, i)
    decreases i
  {
    if i == 0 {
    } else {
      RestSkips(s, i - 1);
    }
  }

  /** The greatest prime in the list has its square in the list, too. */
  ghost predicate SquareOfLastInList(n: int) {
    exists m :: 3 <= m && Prime(m) && m * m < n && m % 2 == 1 && forall p :: m < p < n ==> !Prime(p)
  }

  lemma LastNumber(n: int)
    requires n >= 4
    ensures PrimesUpTo(NumberAt((n - 2) / 2) - 1) == PrimesUpTo(n - 1)
  {
    var top := NumberAt((n - 2) / 2) - 1;
    if n % 2 == 0 {
      assert top == n && Factors(2, n / 2, n);
    } else {
      assert top == n - 1;
    }
  }

  /** What is appended at the end completes the list. */
  lemma Finished(s: seq<int>, k: nat, m: int, n: int)
    requires n >= 4 && |s| == (n - 2) / 2 && k < |s| && m >= 3 && m == NumberAt(k) && m * m > NumberAt(|s| - 1)
    requires Sieved(s, m) && forall i :: 0 <= i < k ==> s[i] == 0
    ensures PrimesUpTo(n - 1) == PrimesUpTo(m - 1) + Rest(s, 0)
  {
    RestSkips(s, k);
    SurvivorsArePrimes(s, k, m);
    RestIsPrimes(s, k);
    LastNumber(n);
  }

  lemma NothingStruck(s: seq<int>)
    requires forall i :: 0 <= i < |s| ==> s[i] == NumberAt(i)
    ensures Sieved(s, 3)
  {
  }

  lemma SmallPrimes()
    ensures PrimesUpTo(2) == [2]
  {
    forall i, j
      ensures !Factors(i, j, 2)
    {
      if 2 <= i && 2 <= j { ProductGrows(i, j); }
    }
    assert PrimesUpTo(1) == [];
  }

  lemma Survivor(s: seq<int>, done: int, k: nat)
    requires 3 <= done <= NumberAt(|s|) && k < |s| && s[k] != 0 && Sieved(s, done)
    requires forall i :: 0 <= i < k ==> s[i] == 0
    ensures s[k] == NumberAt(k) >= done && Sieved(s, s[k]) && Prime(s[k])
    ensures PrimesUpTo(s[k] - 1) == PrimesUpTo(done - 1)
  {
    if NumberAt(k) < done { BelowIsStruck(k, done); }
    StruckSkip(s, done, NumberAt(k));
    NextPrime(s, k, done, NumberAt(k));
  }

  /** Striking out sets entries to 0 only. */
  lemma SurvivorsStay(s: seq<int>, done: int, k: nat)
    requires Sieved(s, done) && k < |s| && done == NumberAt(k) + 1
    ensures forall i :: 0 <= i <= k ==> s[i] == 0
  {
    forall i | 0 <= i <= k
      ensures s[i] == 0
    {
      BelowIsStruck(i, done);
    }
  }

  lemma RanOff(s: seq<int>, last: int, n: int)
    requires n >= 4 && |s| == (n - 2) / 2 && last >= 3 && last % 2 == 1
    requires Prime(last) && last * last <= NumberAt(|s| - 1)
    requires Sieved(s, last + 1) && forall i :: 0 <= i < |s| ==> s[i] == 0
    ensures SquareOfLastInList(n)
  {
    forall p | last < p < n
      ensures !Prime(p)
    {
      NoPrimeLeft(s, last + 1, p);
    }
  }

  lemma EvenSquare(m: int)
    requires m % 2 == 1
    ensures (m * m) % 2 == 1
  {
    assert m * m == 2 * ((m / 2) * m) + m;
  }

  lemma NotRanOff(m: int, n: int)
    requires n >= 4 && 3 <= m && Prime(m) && m * m > NumberAt((n - 2) / 2 - 1) && m < n && m % 2 == 1
    ensures !SquareOfLastInList(n)
  {
    if m0 :| 3 <= m0 && Prime(m0) && m0 * m0 < n && m0 % 2 == 1 && forall p :: m0 < p < n ==> !Prime(p) {
      SquareBelow(m, m0);
      EvenSquare(m);
      assert false;
    }
  }

  /** The last number that was used for striking out: an odd prime whose square is not too large. */
  ghost predicate LastSmall(last: int, largest: int) {
    last >= 3 && last % 2 == 1 && Prime(last) && last * last <= largest
  }

  /** What holds when the next survivor is looked for: the numbers below done have struck out theirs. */
  ghost predicate Underway(s: seq<int>, fi: nat, done: int, primelist: seq<int>) {
    && s != [] && fi <= |s|
    && 3 <= done <= NumberAt(|s|) && Sieved(s, done) && primelist == PrimesUpTo(done - 1)
    && (forall i :: 0 <= i < fi ==> s[i] == 0)
    && (if done == 3 then fi == 0 && s[0] == 3 else LastSmall(done - 1, NumberAt(|s| - 1)))
  }

  lemma Begun(s: seq<int>)
    requires s != [] && forall i :: 0 <= i < |s| ==> s[i] == NumberAt(i)
    ensures Underway(s, 0, 3, [2])
  {
    NothingStruck(s);
    SmallPrimes();
  }

  lemma Failed(s: seq<int>, fi: nat, done: int, primelist: seq<int>, n: int)
    requires n >= 4 && |s| == (n - 2) / 2 && Underway(s, fi, done, primelist)
    requires forall i :: 0 <= i < |s| ==> s[i] == 0
    ensures SquareOfLastInList(n)
  {
    RanOff(s, done - 1, n);
  }

  /** The survivor m at index k is the next prime after those in the list. */
  ghost predicate NextIs(s: seq<int>, k: nat, m: int, primelist: seq<int>) {
    && k < |s| && s[k] == m == NumberAt(k) && Prime(m) && Sieved(s, m)
    && primelist == PrimesUpTo(m - 1) && forall i :: 0 <= i < k ==> s[i] == 0
  }

  lemma Found(s: seq<int>, fi: nat, done: int, primelist: seq<int>, k: nat, m: int)
    requires Underway(s, fi, done, primelist) && fi <= k < |s| && s[k] == m != 0
    requires forall i :: fi <= i < k ==> s[i] == 0
    ensures NextIs(s, k, m, primelist) && m >= done
  {
    Survivor(s, done, k);
  }

  lemma Finish(s: seq<int>, k: nat, m: int, primelist: seq<int>, n: int)
    requires n >= 4 && |s| == (n - 2) / 2 && NextIs(s, k, m, primelist) && m * m > NumberAt(|s| - 1)
    ensures PrimesUpTo(n - 1) == primelist + Rest(s, 0) && !SquareOfLastInList(n)
  {
    Finished(s, k, m, n);
    NotRanOff(m, n);
  }

  lemma SmallSquare(k: nat, m: int, largest: int)
    requires m == NumberAt(k) && Prime(m) && m * m <= largest
    ensures LastSmall(m, largest)
  {
  }

  lemma Advanced(s: seq<int>, k: nat, primelist: seq<int>, m: int)
    requires k < |s| && m == NumberAt(k) && Sieved(s, m + 1) && primelist == PrimesUpTo(m - 1)
    requires LastSmall(m, NumberAt(|s| - 1))
    ensures Underway(s, k, m + 1, primelist + [m])
  {
    SurvivorsStay(s, m + 1, k);
  }

  class Program {
    var fi: nat
    const s: array<int>
    const n: int

    /** s = range(3, n, 2), with at least one number in it. */
    constructor (n: int)
      requires n >= 4
      ensures this.n == n && fi == 0 && fresh(s) && Fresh()
    {
      this.n := n;
      fi := 0;
      s := new int[(n - 2) / 2](i => NumberAt(i));
    }

    /** The list as range makes it. */
    ghost predicate Fresh()
      reads s
    {
      s.Length == (n - 2) / 2 && s.Length >= 1 && forall i :: 0 <= i < s.Length ==> s[i] == NumberAt(i)
    }

    /** next_non_zero: the first survivor from fi on; fi stays there. None is the IndexError. */
    method NextNonZero() returns (m: Option<int>)
      requires fi <= s.Length
      modifies this`fi
      ensures old(fi) <= fi <= s.Length && forall i :: old(fi) <= i < fi ==> s[i] == 0
      ensures m == if fi < s.Length then Some(s[fi]) else None
      ensures m.Some? ==> m.value != 0
    {
      while true
        invariant old(fi) <= fi <= s.Length && forall i :: old(fi) <= i < fi ==> s[i] == 0
        decreases s.Length - fi
      {
        if fi == s.Length {
          return None;
        }
        if s[fi] != 0 {
          return Some(s[fi]);
        }
        fi := fi + 1;
      }
    }

    /** The comprehension over the rest of the list. */
    method AppendNonZero(primelist: seq<int>) returns (r: seq<int>)
      ensures r == primelist + Rest(s[..], 0)
    {
      r := primelist;
      var i := 0;
      while i < s.Length
        invariant 0 <= i <= s.Length && r + Rest(s[..], i) == primelist + Rest(s[..], 0)
      {
        assert Rest(s[..], i) == (if s[i] != 0 then [s[i]] else []) + Rest(s[..], i + 1);
        if s[i] != 0 { r := r + [s[i]]; }
        i := i + 1;
      }
    }

    /** The inner loop and the line after it: the multiples of m from its square on, then m itself. */
    method StrikeOut(m: int, limit: int, k: nat)
      requires m >= 3 && k < s.Length && m == NumberAt(k) && s[k] == m && Sieved(s[..], m) && limit == s.Length - 1
      modifies s
      ensures Sieved(s[..], m + 1)
    {
      IndexOfSurvivor(s[..], m, k);
      StartOfMultiples(m);
      StrikeStarts(s[..], m);
      var ind := m * (m - 1) / 2 + Index(s[..], m);
      ghost var q := m;
      while ind <= limit
        invariant 0 <= ind && AtMultiple(s[..], m, q, ind) && s[..][k] == m
        decreases limit - ind
      {
        StrikeStep(s[..], m, q, ind, k);
        ghost var before := s[..];
        s[ind] := 0;
        assert s[..] == before[ind := 0];
        ind := ind + m;
        q := q + 2;
      }
      IndexOfSurvivor(s[..], m, k);
      StrikeDone(s[..], m, NumberAt(ind), k);
      ghost var before := s[..];
      s[Index(s[..], m)] := 0;
      assert s[..] == before[k := 0];
    }

    /** One round of the outer loop with the survivor m. */
    method UseSurvivor(m: int, limit: int, primelist: seq<int>) returns (r: seq<int>)
      requires NextIs(s[..], fi, m, primelist) && limit == s.Length - 1 && m * m <= NumberAt(s.Length - 1)
      modifies s
      ensures Underway(s[..], fi, m + 1, r)
    {
      assert s[..][fi] == m;
      SmallSquare(fi, m, NumberAt(s.Length - 1));
      StrikeOut(m, limit, fi);
      Advanced(s[..], fi, primelist, m);
      r := primelist + [m];
    }

    /**
     * sieve: the primes below n, unless the search for a survivor runs off the list, which it
     * does exactly if no prime follows a prime whose square is still in the list.
     */
    method Sieve() returns (r: Option<seq<int>>)
      requires n >= 4 && Fresh() && fi == 0
      modifies this`fi, s
      ensures r.Some? ==> r.value == PrimesUpTo(n - 1)
      ensures r.None? <==> SquareOfLastInList(n)
    {
      var primelist := [2];
      var limit := (s[s.Length - 1] - 3) / 2;
      var largest := s[s.Length - 1];
      ghost var done := 3;
      Begun(s[..]);
      while true
        invariant Underway(s[..], fi, done, primelist)
        decreases NumberAt(s.Length) - done
      {
        ghost var start := fi;
        var next := NextNonZero();
        if next.None? {
          Failed(s[..], start, done, primelist, n);
          return None;
        }
        var m := next.value;
        Found(s[..], start, done, primelist, fi, m);
        if m * m > largest {
          Finish(s[..], fi, m, primelist, n);
          primelist := AppendNonZero(primelist);
          return Some(primelist);
        }
        primelist := UseSurvivor(m, limit, primelist);
        done := m + 1;
      }
    }
  }
}
