/**
 * benchmark/seive.c: a sieve that keeps one bit per odd number in an array of 32-bit words.
 * The constants P1, P2 and P3 are parameters here. Index arithmetic is on the newtype Uint32,
 * so that no wrap-around goes unnoticed.
 */
module BitSieve {
  import opened Primes

  newtype Uint32 = x: int | 0 <= x < 0x1_0000_0000

  // ------------------------------------------------------------------ bits

  function Bit(w: bv32, t: bv5): bool {
    (w >> t) & 1 == 1
  }

  /** w |= 1 << s */
  function Mark(w: bv32, s: bv5): bv32 {
    w | (1 << s)
  }

  lemma MarkBit(w: bv32, s: bv5, t: bv5)
    ensures Bit(Mark(w, s), t) == (s == t || Bit(w, t))
  {
  }

  lemma BitOfZero(t: bv5)
    ensures !Bit(0, t)
  {
  }

  lemma SamePosition(a: nat, b: nat)
    requires a < 32 && b < 32
    ensures a as bv5 == b as bv5 <==> a == b
  {
    assert (a as bv5) as int == a;
    assert (b as bv5) as int == b;
  }

  /** GET(b): the word index is b >> 5, the position in the word b & 31. */
  function Get(words: seq<bv32>, b: nat): bool
    requires b < 32 * |words|
  {
    Bit(words[b / 32], (b % 32) as bv5)
  }

  function Marked(words: seq<bv32>, i: nat): seq<bv32>
    requires i < 32 * |words|
  {
    words[i / 32 := Mark(words[i / 32], (i % 32) as bv5)]
  }

  lemma MarkedBit(words: seq<bv32>, i: nat, b: nat)
    requires i < 32 * |words| && b < 32 * |words|
    ensures Get(Marked(words, i), b) == (b == i || Get(words, b))
  {
    if b / 32 == i / 32 {
      MarkBit(words[i / 32], (i % 32) as bv5, (b % 32) as bv5);
      SamePosition(i % 32, b % 32);
      assert b == i <==> b % 32 == i % 32;
    }
  }

  // ------------------------------------------------------------------ what is struck out

  ghost predicate Multiple(k: nat, m: int, b: nat) {
    m >= 2 * k + 1 && (2 * k + 1) * m == 2 * b + 1
  }

  /** Number 2b+1 is 2k+1 times something at least as large. */
  ghost predicate Hit(k: nat, b: nat) {
    exists m :: Multiple(k, m, b)
  }

  ghost predicate Product(i: int, j: int, b: nat) {
    3 <= i <= j && i * j == 2 * b + 1
  }

  /** Number 2b+1 is a product whose smaller factor is below 2k+1. */
  ghost predicate Struck(k: nat, b: nat) {
    exists i, j :: Product(i, j, b) && i < 2 * k + 1
  }

  lemma NotMultiple(d: nat, m: int, m': int, i: nat, b: nat)
    requires d * m == 2 * i + 1 && i < b < i + d && m % 2 == 1
    ensures d * m' != 2 * b + 1
  {
    if d * m' == 2 * b + 1 {
      Squeeze(d, m, m');
      EvenMultiple(d, m', b);
    }
  }

  /** Between two odd multiples of 2k+1 there is no other odd one. */
  lemma NoHitBetween(k: nat, m: int, i: nat, b: nat)
    requires Multiple(k, m, i) && i < b < i + 2 * k + 1 && m % 2 == 1
    ensures !Hit(k, b)
  {
    forall m'
      ensures !Multiple(k, m', b)
    {
      NotMultiple(2 * k + 1, m, m', i, b);
    }
  }

  lemma NextMultiple(k: nat, m: int, i: nat)
    requires Multiple(k, m, i)
    ensures Multiple(k, m + 2, i + 2 * k + 1)
  {
    assert (2 * k + 1) * (m + 2) == (2 * k + 1) * m + 2 * (2 * k + 1);
  }

  lemma FirstMultiple(k: nat)
    requires k >= 1
    ensures Multiple(k, 2 * k + 1, 2 * k * (k + 1))
    ensures forall b: nat :: b < 2 * k * (k + 1) ==> !Hit(k, b)
  {
    var d := 2 * k + 1;
    assert d * d == 2 * (2 * k * (k + 1)) + 1;
    forall b: nat | b < 2 * k * (k + 1)
      ensures !Hit(k, b)
    {
      if m :| Multiple(k, m, b) {
        Times(d, d, m);
        assert false;
      }
    }
  }

  lemma StruckGrows(k: nat, b: nat)
    requires k >= 1 && (Struck(k, b) || Hit(k, b))
    ensures Struck(k + 1, b)
  {
    if m :| Multiple(k, m, b) {
      assert Product(2 * k + 1, m, b);
    } else {
      var i, j :| Product(i, j, b) && i < 2 * k + 1;
      assert Product(i, j, b) && i < 2 * (k + 1) + 1;
    }
  }

  lemma SmallerFactor(k: nat, i: int, j: int, b: nat)
    requires Product(i, j, b) && i < 2 * (k + 1) + 1
    ensures i < 2 * k + 1 || Multiple(k, j, b)
  {
    OddFactor(i, j, b);
    assert i >= 2 * k + 1 ==> i == 2 * k + 1;
  }

  lemma StruckShrinks(k: nat, b: nat)
    requires k >= 1 && Struck(k + 1, b)
    ensures Struck(k, b) || Hit(k, b)
  {
    var i, j :| Product(i, j, b) && i < 2 * (k + 1) + 1;
    SmallerFactor(k, i, j, b);
  }

  /** Striking out the multiples of 2k+1 brings the products with a factor below 2k+3. */
  lemma StruckNext(k: nat, b: nat)
    requires k >= 1
    ensures Struck(k + 1, b) <==> Struck(k, b) || Hit(k, b)
  {
    if Struck(k, b) || Hit(k, b) { StruckGrows(k, b); }
    if Struck(k + 1, b) { StruckShrinks(k, b); }
  }

  /** Multiples of a composite are struck out already. */
  lemma StruckBefore(k: nat, b: nat)
    requires k >= 1 && Struck(k, k) && Hit(k, b)
    ensures Struck(k, b)
  {
    var i, j :| Product(i, j, k) && i < 2 * k + 1;
    var m :| Multiple(k, m, b);
    Associate(i, j, m);
    Times(j, 1, m);
    assert Product(i, j * m, b);
  }

  lemma StruckIffComposite(k: nat, b: nat)
    requires b >= 1 && (2 * k + 1) * (2 * k + 1) > 2 * b + 1
    ensures Struck(k, b) <==> !Prime(2 * b + 1)
  {
    var n := 2 * b + 1;
    if Struck(k, b) {
      var i, j :| Product(i, j, b) && i < 2 * k + 1;
      assert Factors(i, j, n);
    }
    if !Prime(n) {
      var p, q := PrimeFactor(n);
      Even(1, q);
      if p >= 2 * k + 1 { SquareBelow(2 * k + 1, p); }
      assert Product(p, q, b);
    }
  }

  // ------------------------------------------------------------------ the program

  /** The bits below P2 say what factors below 2k+1 strike out; no bit from P2 on is set. */
  ghost predicate Sieved(words: seq<bv32>, P2: nat, k: nat) {
    forall b: nat :: b < 32 * |words| ==> (Get(words, b) <==> b < P2 && Struck(k, b))
  }

  /** In the middle of a strike, at index i: multiples of 2k+1 below i are done. */
  ghost predicate Striking(words: seq<bv32>, P2: nat, k: nat, i: nat) {
    forall b: nat :: b < 32 * |words| ==> (Get(words, b) <==> b < P2 && (Struck(k, b) || (Hit(k, b) && b < i)))
  }

  lemma StrikeOne(words: seq<bv32>, P2: nat, k: nat, m: int, i: nat)
    requires P2 <= 32 * |words| && i < P2 && Multiple(k, m, i) && m % 2 == 1 && Striking(words, P2, k, i)
    ensures Striking(Marked(words, i), P2, k, i + 2 * k + 1)
  {
    var words' := Marked(words, i);
    forall b: nat | b < 32 * |words'|
      ensures Get(words', b) <==> b < P2 && (Struck(k, b) || (Hit(k, b) && b < i + 2 * k + 1))
    {
      MarkedBit(words, i, b);
      if i < b < i + 2 * k + 1 { NoHitBetween(k, m, i, b); }
    }
  }

  lemma StrikeDone(words: seq<bv32>, P2: nat, k: nat, i: nat)
    requires k >= 1 && i >= P2 && Striking(words, P2, k, i)
    ensures Sieved(words, P2, k + 1)
  {
    forall b: nat | b < 32 * |words|
      ensures Get(words, b) <==> b < P2 && Struck(k + 1, b)
    {
      StruckNext(k, b);
    }
  }

  lemma StrikeStarts(words: seq<bv32>, P2: nat, k: nat)
    requires k >= 1 && Sieved(words, P2, k)
    ensures Striking(words, P2, k, 2 * k * (k + 1))
  {
    FirstMultiple(k);
  }

  /** A number that is struck out already need not be looked at again. */
  lemma StrikeSkipped(words: seq<bv32>, P2: nat, k: nat)
    requires 1 <= k < 32 * |words| && Sieved(words, P2, k) && Get(words, k)
    ensures Sieved(words, P2, k + 1)
  {
    forall b: nat | b < 32 * |words|
      ensures Get(words, b) <==> b < P2 && Struck(k + 1, b)
    {
      StruckNext(k, b);
      if Hit(k, b) { StruckBefore(k, b); }
    }
  }

  /** The sizes that the constants describe: words for all of P2 and for all roots, and no overflow. */
  predicate Dimensions(P1: nat, P2: Uint32, P3: Uint32) {
    P2 as int <= 32 * P1 && P3 as int < 32 * P1 <= 0x1_0000_0000 && P2 as int + 2 * P3 as int + 1 <= 0x1_0000_0000 &&
    2 * P3 as int * (P3 as int + 1) < 0x1_0000_0000
  }

  /** The constants of the program: they are sized for 10^8, ten times what MAXN and the comments beside them say. */
  lemma ProgramConstants()
    ensures Dimensions(1562501, 50000000, 5000) && (2 * 5000 + 3) * (2 * 5000 + 3) >= 2 * 50000000
  {
  }

  lemma IndexFits(k: nat, P3: nat)
    requires 1 <= k <= P3 && 2 * P3 * (P3 + 1) < 0x1_0000_0000
    ensures 2 * k * (k + 1) < 0x1_0000_0000
  {
    Times(2 * k, k + 1, P3 + 1);
    Times(P3 + 1, 2 * k, 2 * P3);
    ProductCommutes(2 * k, P3 + 1);
    ProductCommutes(2 * P3, P3 + 1);
  }

  /** sieve[i>>5] |= 1<<(i&31) */
  method SetBit(sieve: array<bv32>, i: Uint32)
    requires i as int < 32 * sieve.Length
    modifies sieve
    ensures sieve[..] == Marked(old(sieve[..]), i as nat)
  {
    sieve[i / 32] := sieve[i / 32] | (1 << ((i % 32) as bv5));
  }

  /** The body and the increment of the inner loop. */
  method StrikeNext(sieve: array<bv32>, i: Uint32, j: Uint32, ghost k: nat, ghost m: int, ghost P2: nat)
    returns (next: Uint32)
    requires P2 <= 32 * sieve.Length && i as nat < P2 && j as int == 2 * k + 1 && i as int + j as int < 0x1_0000_0000
    requires Multiple(k, m, i as nat) && m % 2 == 1 && Striking(sieve[..], P2, k, i as nat)
    modifies sieve
    ensures next as nat == i as nat + 2 * k + 1 && Striking(sieve[..], P2, k, next as nat)
  {
    StrikeOne(sieve[..], P2, k, m, i as nat);
    SetBit(sieve, i);
    next := i + j;
  }

  /** The inner loop, from the square of 2k+1 on, in steps of j. */
  method StrikeFrom(sieve: array<bv32>, start: Uint32, j: Uint32, P2: Uint32, ghost k: nat)
    requires P2 as int <= 32 * sieve.Length && P2 as int + j as int <= 0x1_0000_0000 && k >= 1 && j as int == 2 * k + 1
    requires Multiple(k, 2 * k + 1, start as nat) && Striking(sieve[..], P2 as nat, k, start as nat)
    modifies sieve
    ensures Sieved(sieve[..], P2 as nat, k + 1)
  {
    var i := start;
    ghost var m := 2 * k + 1;
    while i < P2
      invariant Multiple(k, m, i as nat) && m % 2 == 1
      invariant Striking(sieve[..], P2 as nat, k, i as nat)
      decreases P2 as int - i as int
    {
      NextMultiple(k, m, i as nat);
      i := StrikeNext(sieve, i, j, k, m, P2 as nat);
      m := m + 2;
    }
    StrikeDone(sieve[..], P2 as nat, k, i as nat);
  }

  /** Strike out the odd multiples of 2k+1 from its square on. */
  method Strike(sieve: array<bv32>, k: Uint32, P2: Uint32, ghost P3: Uint32)
    requires Dimensions(sieve.Length, P2, P3) && 1 <= k <= P3 && Sieved(sieve[..], P2 as nat, k as nat)
    modifies sieve
    ensures Sieved(sieve[..], P2 as nat, k as nat + 1)
  {
    IndexFits(k as nat, P3 as nat);
    FirstMultiple(k as nat);
    StrikeStarts(sieve[..], P2 as nat, k as nat);
    StrikeFrom(sieve, 2 * k * (k + 1), 2 * k + 1, P2, k as nat);
  }

  lemma NothingStruck(b: nat)
    ensures !Struck(1, b)
  {
  }

  lemma AllClear(words: seq<bv32>, P2: nat)
    requires forall i :: 0 <= i < |words| ==> words[i] == 0
    ensures Sieved(words, P2, 1)
  {
    forall b: nat | b < 32 * |words|
      ensures !Get(words, b) && !Struck(1, b)
    {
      BitOfZero((b % 32) as bv5);
      NothingStruck(b);
    }
  }

  lemma Complete(words: seq<bv32>, P2: nat, P3: nat)
    requires P2 <= 32 * |words| && Sieved(words, P2, P3 + 1) && (2 * P3 + 3) * (2 * P3 + 3) >= 2 * P2
    ensures forall b: nat :: 1 <= b < P2 ==> (Get(words, b) <==> !Prime(2 * b + 1))
  {
    forall b: nat | 1 <= b < P2
      ensures Get(words, b) <==> !Prime(2 * b + 1)
    {
      StruckIffComposite(P3 + 1, b);
    }
  }

  /** make: afterwards bit b is clear exactly if 2b+1 is prime. */
  method Make(sieve: array<bv32>, P2: Uint32, P3: Uint32)
    requires Dimensions(sieve.Length, P2, P3) && (2 * P3 as int + 3) * (2 * P3 as int + 3) >= 2 * P2 as int
    modifies sieve
    ensures forall b: nat :: 1 <= b < P2 as nat ==> (Get(sieve[..], b) <==> !Prime(2 * b + 1))
  {
    var n := 0;
    while n < sieve.Length
      invariant 0 <= n <= sieve.Length && forall i :: 0 <= i < n ==> sieve[i] == 0
    {
      sieve[n] := 0;
      n := n + 1;
    }
    AllClear(sieve[..], P2 as nat);
    var k: Uint32 := 1;
    while k <= P3
      invariant 1 <= k as int <= P3 as int + 1 && Sieved(sieve[..], P2 as nat, k as nat)
      decreases P3 as int + 1 - k as int
    {
      if !Get(sieve[..], k as nat) {
        Strike(sieve, k, P2, P3);
      } else {
        StrikeSkipped(sieve[..], P2 as nat, k as nat);
      }
      k := k + 1;
    }
    Complete(sieve[..], P2 as nat, P3 as nat);
  }

  /** isprime */
  predicate IsPrime(words: seq<bv32>, p: int)
    requires p < 64 * |words|
  {
    p == 2 || (p > 2 && p % 2 == 1 && !Get(words, (p - 1) / 2))
  }

  lemma TwoIsPrime()
    ensures Prime(2)
  {
    forall i, j
      ensures !Factors(i, j, 2)
    {
      if 2 <= i && 2 <= j { ProductGrows(i, j); }
    }
  }

  /** After make, isprime decides primality for every p below 2 * P2, negative ones included. */
  lemma IsPrimeDecides(words: seq<bv32>, P2: nat, p: int)
    requires P2 <= 32 * |words| && p < 2 * P2
    requires forall b: nat :: 1 <= b < P2 ==> (Get(words, b) <==> !Prime(2 * b + 1))
    ensures IsPrime(words, p) <==> Prime(p)
  {
    if p == 2 {
      TwoIsPrime();
    } else if p > 2 {
      if p % 2 == 0 {
        assert Factors(2, p / 2, p);
      } else {
        assert p == 2 * ((p - 1) / 2) + 1;
      }
    }
  }
}
