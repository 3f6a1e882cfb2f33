/**
 * How far the printed groups of benchmark/pi.c are from the series they come from: dropping
 * 14 cells for every four digits is enough, because 10000 < 2^14.
 */
module PiAccuracy {
  import opened PiSpigot

  ghost function Pow10000(n: nat): real {
    if n == 0 then 1.0 else 10000.0 * Pow10000(n - 1)
  }

  /** x moved up by n groups of four digits. */
  ghost function Up(n: nat, x: real): real {
    if n == 0 then x else 10000.0 * Up(n - 1, x)
  }

  /** 2^-n */
  ghost function Half(n: nat): real {
    if n == 0 then 1.0 else Half(n - 1) / 2.0
  }

  /** (10000 / 2^14)^n */
  ghost function Ratio(n: nat): real {
    if n == 0 then 1.0 else 0.6103515625 * Ratio(n - 1)
  }

  // ------------------------------------------------------------------ weights

  lemma {:induction false} UpIsProduct(n: nat, x: real)
    ensures Up(n, x) == Pow10000(n) * x
  {
    if n == 0 {
    } else {
      UpIsProduct(n - 1, x);
    }
  }

  lemma {:induction false} UpSum(n: nat, x: real, y: real)
    ensures Up(n, x + y) == Up(n, x) + Up(n, y)
  {
    if n == 0 {
    } else {
      UpSum(n - 1, x, y);
    }
  }

  lemma {:induction false} UpMono(n: nat, x: real, y: real)
    requires x <= y
    ensures Up(n, x) <= Up(n, y)
  {
    if n == 0 {
    } else {
      UpMono(n - 1, x, y);
    }
  }

  lemma {:induction false} UpNext(n: nat, x: real)
    ensures Up(n, 10000.0 * x) == Up(n + 1, x)
  {
    if n == 0 {
    } else {
      UpNext(n - 1, x);
    }
  }

  lemma {:induction false} TimesSign(n: nat, x: real)
    requires n >= 1
    ensures Times(n, x) > 0.0 <==> x > 0.0
  {
    if n > 1 {
      TimesSign(n - 1, x);
    } else {
      assert Times(0, x) == 0.0;
    }
  }

  lemma {:induction false} TimesOrder(n: nat, x: real, y: real)
    requires n >= 1
    ensures Times(n, x) <= Times(n, y) <==> x <= y
  {
    if n > 1 {
      TimesOrder(n - 1, x, y);
    } else {
      assert Times(0, x) == 0.0 == Times(0, y);
    }
  }

  lemma {:induction false} TimesDouble(n: nat, x: real)
    ensures Times(n, 2.0 * x) == 2.0 * Times(n, x)
  {
    if n == 0 {
    } else {
      TimesDouble(n - 1, x);
    }
  }

  lemma {:induction false} WeightPositive(w: nat -> real, b: nat)
    requires Weights(w) && b >= 1
    ensures w(b) > 0.0
  {
    assert WeightAt(w, b);
    if b <= 1 {
    } else {
      WeightPositive(w, b - 1);
      TimesSign(b - 1, w(b - 1));
      TimesSign(2 * b - 1, w(b));
    }
  }

  lemma {:induction false} TimesMono(m: nat, n: nat, w: real)
    requires m <= n && w >= 0.0
    ensures 0.0 <= Times(m, w) <= Times(n, w)
  {
    if m < n {
      TimesMono(m, n - 1, w);
    } else if n > 0 {
      TimesMono(n - 1, n - 1, w);
    }
  }

  /** The telescoping identity of the weights. */
  lemma Telescope(w: nat -> real, b: nat)
    requires Weights(w) && b >= 2
    ensures Times(b - 1, w(b)) == Times(b - 1, w(b - 1)) - Times(b, w(b))
    ensures Times(2 * b - 2, w(b)) == 2.0 * Times(b - 1, w(b))
  {
    assert WeightAt(w, b);
    TimesSum(b - 1, b, w(b));
    TimesSum(b - 1, b - 1, w(b));
  }

  lemma {:induction false} WeightHalves(w: nat -> real, b: nat)
    requires Weights(w) && b >= 1
    ensures w(b) <= Half(b - 1)
  {
    assert WeightAt(w, 1);
    if b <= 1 {
    } else {
      WeightHalves(w, b - 1);
      WeightPositive(w, b);
      Telescope(w, b);
      TimesSum(b - 1, 1, w(b));
      TimesSign(b, w(b));
      TimesMono(b - 1, b, w(b));
      TimesDouble(b - 1, w(b));
      TimesOrder(b - 1, 2.0 * w(b), w(b - 1));
    }
  }

  // ------------------------------------------------------------------ the dropped cells

  /** Cells m+1 to n, all digits, are worth less than two times m * w_m. */
  lemma {:induction false} DroppedCells(w: nat -> real, f: seq<nat>, m: nat, n: nat)
    requires Weights(w) && 1 <= m <= n < |f| && Digits(f, n)
    ensures 0.0 <= Value(w, f, n) - Value(w, f, m) <= 2.0 * (Times(m, w(m)) - Times(n, w(n)))
    decreases n
  {
    if m == n {
    } else {
      DroppedCells(w, f, m, n - 1);
      WeightPositive(w, n);
      TimesMono(f[n], 2 * n - 2, w(n));
      Telescope(w, n);
    }
  }

  lemma LastCells(w: nat -> real, f: seq<nat>, n: nat)
    requires Weights(w) && 1 <= n < |f| && Digits(f, n)
    ensures 0.0 <= Value(w, f, n) <= 2.0
  {
    DroppedCells(w, f, 1, n);
    WeightPositive(w, n);
    TimesMono(n, n, w(n));
    assert WeightAt(w, 1);
    assert Value(w, f, 1) == Value(w, f, 0) + Times(f[1], w(1));
    assert Times(1, w(1)) == Times(0, w(1)) + w(1);
  }

  lemma {:induction false} UpSixteen(n: nat, x: real)
    ensures Up(n, 16384.0 * x) == 16384.0 * Up(n, x)
  {
    if n == 0 {
    } else {
      UpSixteen(n - 1, x);
    }
  }

  lemma HalfTwice(n: nat)
    requires n >= 2
    ensures Half(n) == Half(n - 2) / 4.0
  {
    assert Half(n) == Half(n - 1) / 2.0;
  }

  lemma FourteenHalves(n: nat)
    requires n >= 14
    ensures 16384.0 * Half(n) == Half(n - 14)
  {
    HalfTwice(n);
    HalfTwice(n - 2);
    HalfTwice(n - 4);
    HalfTwice(n - 6);
    HalfTwice(n - 8);
    HalfTwice(n - 10);
    HalfTwice(n - 12);
  }

  lemma {:induction false} RatioIs(i: nat)
    ensures Up(i, Half(14 * i)) == Ratio(i) && Ratio(i) > 0.0
  {
    if i == 0 {
    } else {
      RatioIs(i - 1);
      FourteenHalves(14 * i);
      UpSixteen(i - 1, Half(14 * i));
    }
  }

  lemma {:induction false} TimesFourteen(i: nat, h: real)
    ensures Times(14 * i, 2.0 * h) == 28.0 * Times(i, h)
  {
    TimesIsProduct(14 * i, 2.0 * h);
    TimesIsProduct(i, h);
  }

  lemma {:induction false} UpScales(n: nat, x: real)
    ensures Up(n, 56.0 * x) == 56.0 * Up(n, x)
  {
    if n == 0 {
    } else {
      UpScales(n - 1, x);
    }
  }

  lemma {:induction false} UpZero(n: nat)
    ensures Up(n, 0.0) == 0.0
  {
    if n == 0 {
    } else {
      UpZero(n - 1);
    }
  }

  lemma {:induction false} UpTimes(n: nat, k: nat, x: real)
    ensures Up(n, Times(k, x)) == Times(k, Up(n, x))
  {
    if k > 0 {
      UpTimes(n, k - 1, x);
      UpSum(n, Times(k - 1, x), x);
    } else {
      UpZero(n);
    }
  }

  /** What the drop after which 14*i cells remain contributes to the final error. */
  lemma DropShare(w: nat -> real, i: nat, drop: real)
    requires Weights(w) && i >= 1 && drop <= 2.0 * Times(14 * i, w(14 * i))
    ensures Up(i, drop) <= 56.0 * Times(i, Ratio(i))
  {
    var h := Half(14 * i);
    WeightHalves(w, 14 * i);
    RatioIs(i);
    TimesOrder(14 * i, w(14 * i), 2.0 * h);
    TimesFourteen(i, h);
    UpMono(i, drop, 56.0 * Times(i, h));
    UpScales(i, Times(i, h));
    UpTimes(i, i, h);
  }

  // ------------------------------------------------------------------ the error of a run

  /** All that has been emitted or is held back, as one number: 10000 * printed + e. */
  ghost function Emitted(s: State): nat {
    BASE * Number(s.groups) + s.e
  }

  /** What is missing in state s after j sweeps, when v was there at the start and c cells remain. */
  ghost function Missing(w: nat -> real, v: real, j: nat, s: State, c: nat): real
    requires c < |s.f|
  {
    Up(j, v) - Emitted(s) as real - Value(w, s.f, c)
  }

  /** What the drops of the first j sweeps have cost, in units of the current e, when v was there at the start. */
  ghost function Lost(w: nat -> real, v: real, K: nat, j: nat): real
    requires j <= K
  {
    Missing(w, v, j, After(K, j), 14 * (K - j))
  }

  lemma EmittedStep(s: State, c: nat)
    requires 1 <= c < |s.f|
    ensures Emitted(Next(s, c)) == BASE * Emitted(s) + Sweep(s.f, c, 0).1
  {
    var s' := Next(s, c);
    assert s'.groups[..|s'.groups| - 1] == s.groups;
  }

  /** The number d that sweep j yields. */
  ghost function Yield(K: nat, j: nat): nat
    requires 1 <= j <= K
  {
    Sweep(After(K, j - 1).f, 14 * (K - j + 1), 0).1
  }

  /** What the first j sweeps yield, in order. */
  ghost function Yields(K: nat, j: nat): (r: seq<nat>)
    requires j <= K
    ensures |r| == j
  {
    if j == 0 then [] else Yields(K, j - 1) + [Yield(K, j)]
  }

  /** Holding back a remainder loses nothing: 10000 * printed + e is the base-10000 number of the d values. */
  lemma {:induction false} EmittedIsYields(K: nat, j: nat)
    requires j <= K
    ensures Emitted(After(K, j)) == Number(Yields(K, j))
    decreases j
  {
    if j == 0 {
    } else {
      EmittedIsYields(K, j - 1);
      EmittedStep(After(K, j - 1), 14 * (K - j + 1));
      assert Yields(K, j)[..j - 1] == Yields(K, j - 1);
    }
  }

  lemma OneUnit(n: nat)
    ensures Times(n, 1.0) == n as real
  {
    TimesIsProduct(n, 1.0);
  }

  /** The worth of the 14 cells that sweep j leaves behind. */
  ghost function Drop(w: nat -> real, K: nat, j: nat): real
    requires 1 <= j <= K
  {
    var f := After(K, j).f;
    Value(w, f, 14 * (K - j + 1)) - Value(w, f, 14 * (K - j))
  }

  /** The cost of sweep j: the previous cost moves up four digits and the 14 dropped cells are added. */
  lemma LostStep(w: nat -> real, v: real, K: nat, j: nat)
    requires Weights(w) && 1 <= j <= K
    ensures Lost(w, v, K, j) == 10000.0 * Lost(w, v, K, j - 1) + Drop(w, K, j)
  {
    var s := After(K, j - 1);
    var c := 14 * (K - j + 1);
    var d := Sweep(s.f, c, 0).1;
    SweepConserves(w, s.f, c, 0);
    OneUnit(d);
    EmittedStep(s, c);
    assert Times(0, w(c)) == 0.0;
  }

  /** The sum of j * (10000/2^14)^j for j from lo to hi-1. */
  ghost function Terms(lo: nat, hi: nat): real
    decreases hi - lo
  {
    if lo >= hi then 0.0 else Times(lo, Ratio(lo)) + Terms(lo + 1, hi)
  }

  /** An upper bound for that sum over all j from lo on. */
  ghost function Tail(lo: nat): real {
    2.5665 * Times(lo, Ratio(lo)) + 4.0203 * Ratio(lo)
  }

  lemma {:induction false} TimesShrinks(n: nat, x: real)
    ensures Times(n, 0.6103515625 * x) == 0.6103515625 * Times(n, x)
  {
    if n == 0 {
    } else {
      TimesShrinks(n - 1, x);
    }
  }

  lemma TailStep(i: nat)
    ensures Tail(i + 1) + Times(i, Ratio(i)) <= Tail(i)
  {
    RatioIs(i);
    TimesShrinks(i + 1, Ratio(i));
    TimesMono(0, i, Ratio(i));
  }

  lemma {:induction false} TermsBelowTail(lo: nat, hi: nat)
    ensures Terms(lo, hi) <= Tail(lo)
    decreases hi - lo
  {
    if lo >= hi {
      RatioIs(lo);
      TimesMono(0, lo, Ratio(lo));
    } else {
      TermsBelowTail(lo + 1, hi);
      TailStep(lo);
    }
  }

  /** However many sweeps there are, the dropped cells cost less than 226 in all. */
  lemma TermsSmall(K: nat)
    ensures 56.0 * Terms(1, K) < 226.0
  {
    TermsBelowTail(1, K);
    assert Ratio(1) == 0.6103515625 * Ratio(0);
    assert Times(1, Ratio(1)) == Times(0, Ratio(1)) + Ratio(1);
  }

  /**
   * What a run of K sweeps has lost after j of them: K-j further groups of digits make of it at
   * most the sum of the terms up to K-1, and two units more for the last 14 cells.
   */
  ghost predicate LostBounded(K: nat, j: nat, lost: real)
    requires j <= K
  {
    lost >= 0.0 &&
    if j == 0 then lost == 0.0
    else if j < K then Up(K - j, lost) <= 56.0 * Terms(K - j, K)
    else lost <= 56.0 * Terms(1, K) + 2.0
  }

  ghost predicate DropBounded(i: nat, drop: real) {
    drop >= 0.0 && if i == 0 then drop <= 2.0 else Up(i, drop) <= 56.0 * Times(i, Ratio(i))
  }

  lemma EarlyDrop(w: nat -> real, f: seq<nat>, i: nat)
    requires Weights(w) && i >= 1 && 14 * (i + 1) < |f| && Digits(f, 14 * (i + 1))
    ensures DropBounded(i, Value(w, f, 14 * (i + 1)) - Value(w, f, 14 * i))
  {
    DroppedCells(w, f, 14 * i, 14 * (i + 1));
    WeightPositive(w, 14 * (i + 1));
    TimesMono(0, 14 * (i + 1), w(14 * (i + 1)));
    DropShare(w, i, Value(w, f, 14 * (i + 1)) - Value(w, f, 14 * i));
  }

  lemma DropBound(w: nat -> real, K: nat, j: nat)
    requires Weights(w) && 1 <= j <= K
    ensures DropBounded(K - j, Drop(w, K, j))
  {
    var f, i := After(K, j).f, K - j;
    AfterDigits(K, j);
    if i == 0 { LastCells(w, f, 14); } else { EarlyDrop(w, f, i); }
  }

  lemma {:induction false} TermsPositive(lo: nat, hi: nat)
    ensures Terms(lo, hi) >= 0.0
    decreases hi - lo
  {
    if lo >= hi {
    } else {
      TermsPositive(lo + 1, hi);
      RatioIs(lo);
      TimesMono(0, lo, Ratio(lo));
    }
  }

  lemma BoundKept(K: nat, j: nat, lost: real, drop: real)
    requires 1 <= j <= K && LostBounded(K, j - 1, lost) && DropBounded(K - j, drop)
    ensures LostBounded(K, j, 10000.0 * lost + drop)
  {
    var i := K - j;
    UpZero(K);
    assert Terms(i + 1, K) >= 0.0 by { TermsPositive(i + 1, K); }
    if i == 0 {
      assert Up(1, lost) == 10000.0 * Up(0, lost);
    } else {
      UpSum(i, 10000.0 * lost, drop);
      UpNext(i, lost);
      UpZero(i + 1);
      assert Terms(i, K) == Times(i, Ratio(i)) + Terms(i + 1, K);
    }
  }

  lemma {:induction false} LostBound(w: nat -> real, v: real, K: nat, j: nat)
    requires Weights(w) && j <= K && v == Value(w, Initial(14 * K).f, 14 * K)
    ensures LostBounded(K, j, Lost(w, v, K, j))
    decreases j
  {
    if j == 0 {
      assert Lost(w, v, K, 0) == 0.0;
    } else {
      LostBound(w, v, K, j - 1);
      LostStep(w, v, K, j);
      DropBound(w, K, j);
      BoundKept(K, j, Lost(w, v, K, j - 1), Drop(w, K, j));
    }
  }

  // ------------------------------------------------------------------ the series

  lemma {:induction false} InitialValue(w: nat -> real, c: nat, n: nat)
    requires 1 <= n <= c
    ensures Value(w, Initial(c).f, n) == 2000.0 * Series(w, if n == c then n - 1 else n)
  {
    if n <= 1 {
    } else {
      InitialValue(w, c, n - 1);
    }
    TimesIsProduct(2000, w(n));
    assert Series(w, n) == Series(w, n - 1) + w(n);
  }

  lemma {:induction false} SeriesTail(w: nat -> real, m: nat, n: nat)
    requires Weights(w) && m <= n
    ensures 0.0 <= Series(w, n) - Series(w, m) <= 2.0 * (Half(m) - Half(n))
    decreases n
  {
    if m == n {
    } else {
      SeriesTail(w, m, n - 1);
      WeightPositive(w, n);
      WeightHalves(w, n);
    }
  }

  lemma {:induction false} HalfPositive(n: nat)
    ensures Half(n) > 0.0
  {
    if n == 0 {
    } else {
      HalfPositive(n - 1);
    }
  }

  lemma {:induction false} RatioBelow(K: nat)
    requires K >= 1
    ensures Ratio(K) <= 0.6103515625
  {
    if K > 1 {
      RatioBelow(K - 1);
      RatioIs(K - 1);
    } else {
      assert Ratio(1) == 0.6103515625 * Ratio(0);
    }
  }

  lemma {:induction false} UpThousands(n: nat, x: real)
    ensures Up(n, 8000.0 * x) == 8000.0 * Up(n, x)
  {
    if n == 0 {
    } else {
      UpThousands(n - 1, x);
    }
  }

  /** What lies beyond the partial sum that the program starts from is worth less than one group. */
  lemma SeriesBeyond(w: nat -> real, K: nat, n: nat)
    requires Weights(w) && K >= 1 && n >= 14 * K - 1
    ensures 0.0 <= Up(K, 2000.0 * Series(w, n) - 2000.0 * Series(w, 14 * K - 1)) <= 4900.0
  {
    var rest := 2000.0 * Series(w, n) - 2000.0 * Series(w, 14 * K - 1);
    var h := Half(14 * K);
    SeriesTail(w, 14 * K - 1, n);
    HalfPositive(n);
    RatioIs(K);
    RatioBelow(K);
    UpZero(K);
    UpMono(K, 0.0, rest);
    UpMono(K, rest, 8000.0 * h);
    UpThousands(K, h);
  }

  lemma EmittedReal(groups: seq<nat>, e: nat)
    ensures (BASE * Number(groups) + e) as real == 10000.0 * Number(groups) as real + e as real
  {
  }

  /** 10000^n * x */
  ghost function Shifted(n: nat, x: real): real {
    Pow10000(n) * x
  }

  lemma UpIsShifted(n: nat, x: real)
    ensures Up(n, x) == Shifted(n, x)
  {
    UpIsProduct(n, x);
  }

  lemma NumberClose(w: nat -> real, K: nat, n: nat, s: State)
    requires Weights(w) && K >= 1 && n >= 14 * K - 1 && s.e < BASE && |s.f| > 0
    requires 0.0 <= Missing(w, 2000.0 * Series(w, 14 * K - 1), K, s, 0) <= 228.0
    ensures 0.0 <= Up(K - 1, 2000.0 * Series(w, n)) - Number(s.groups) as real < 1.6
  {
    var v, v' := 2000.0 * Series(w, 14 * K - 1), 2000.0 * Series(w, n);
    SeriesBeyond(w, K, n);
    UpSum(K, v, v' - v);
    EmittedReal(s.groups, s.e);
  }

  lemma NumberCloseShifted(w: nat -> real, K: nat, n: nat, s: State)
    requires Weights(w) && K >= 1 && n >= 14 * K - 1 && s.e < BASE && |s.f| > 0
    requires 0.0 <= Missing(w, 2000.0 * Series(w, 14 * K - 1), K, s, 0) <= 228.0
    ensures 0.0 <= Shifted(K - 1, 2000.0 * Series(w, n)) - Number(s.groups) as real < 1.6
  {
    NumberClose(w, K, n, s);
    UpIsShifted(K - 1, 2000.0 * Series(w, n));
  }

  /** All that a whole run loses, in units of the remainder that it still holds. */
  lemma LossAtEnd(w: nat -> real, v: real, K: nat)
    requires Weights(w) && K >= 1 && v == 2000.0 * Series(w, 14 * K - 1)
    ensures 0.0 <= Lost(w, v, K, K) <= 228.0
  {
    InitialValue(w, 14 * K, 14 * K);
    LostBound(w, v, K, K);
    TermsSmall(K);
  }

  lemma GroupsClose(w: nat -> real, K: nat, n: nat)
    requires Weights(w) && K >= 1 && n >= 14 * K - 1
    ensures 0.0 <= Shifted(K - 1, 2000.0 * Series(w, n)) - Number(After(K, K).groups) as real < 1.6
  {
    var v, s := 2000.0 * Series(w, 14 * K - 1), After(K, K);
    assert 0.0 <= Missing(w, v, K, s, 0) <= 228.0 by {
      LossAtEnd(w, v, K);
    }
    assert s.e < BASE by {
      AfterDigits(K, K);
    }
    NumberCloseShifted(w, K, n, s);
  }

  /**
   * The printed groups spell the series: for every K, and for every partial sum at least as
   * long as the one the program starts from, the number spelled by the K groups is less than
   * two units of its last digit below it, never above.
   */
  lemma Accuracy(K: nat, n: nat)
    requires K >= 1 && n >= 14 * K - 1
    ensures 0.0 <= Shifted(K - 1, 2000.0 * Series(W, n)) - Number(After(K, K).groups) as real < 1.6
  {
    WeightsOfPi();
    GroupsClose(W, K, n);
  }

  // ------------------------------------------------------------------ the limit

  ghost predicate Below(x: real) {
    forall n: nat :: Series(W, n) <= x
  }

  ghost predicate Near(x: real, eps: real, n: nat) {
    Series(W, n) > x - eps
  }

  ghost predicate Reached(x: real, eps: real) {
    exists n: nat :: Near(x, eps, n)
  }

  ghost predicate Approached(x: real) {
    forall eps :: eps > 0.0 ==> Reached(x, eps)
  }

  lemma {:induction false} SeriesGrows(m: nat, n: nat)
    requires m <= n && Weights(W)
    ensures Series(W, m) <= Series(W, n)
  {
    if m == n {
    } else {
      SeriesGrows(m, n - 1);
      WeightPositive(W, n);
    }
  }

  /** Any real number that the partial sums approach from below. */
  lemma NearPartialSum(x: real, eps: real, m: nat) returns (n: nat)
    requires Below(x) && Approached(x) && eps > 0.0
    ensures n >= m && x - eps < Series(W, n) <= x
  {
    assert Reached(x, eps);
    n :| Near(x, eps, n);
    if n < m {
      WeightsOfPi();
      SeriesGrows(n, m);
      n := m;
    }
  }

  /** x moved down by n groups. */
  ghost function Down(n: nat, x: real): real {
    if n == 0 then x else Down(n - 1, x / 10000.0)
  }

  lemma {:induction false} UpDown(n: nat, x: real)
    ensures Up(n, Down(n, x)) == x && (x > 0.0 ==> Down(n, x) > 0.0)
  {
    if n == 0 {
    } else {
      UpDown(n - 1, x / 10000.0);
    }
  }

  lemma UpClose(n: nat, x: real, y: real, eps: real)
    requires 2000.0 * eps == Down(n, 0.4) && x - eps < y <= x
    ensures Up(n, 2000.0 * y) <= Up(n, 2000.0 * x) <= Up(n, 2000.0 * y) + 0.4
  {
    UpMono(n, 2000.0 * y, 2000.0 * x);
    UpMono(n, 2000.0 * x, 2000.0 * y + Down(n, 0.4));
    UpSum(n, 2000.0 * y, Down(n, 0.4));
    UpDown(n, 0.4);
  }

  lemma ShiftedClose(n: nat, x: real, y: real, eps: real)
    requires 2000.0 * eps == Down(n, 0.4) && x - eps < y <= x
    ensures Shifted(n, 2000.0 * y) <= Shifted(n, 2000.0 * x) <= Shifted(n, 2000.0 * y) + 0.4
  {
    UpClose(n, x, y, eps);
    UpIsShifted(n, 2000.0 * x);
    UpIsShifted(n, 2000.0 * y);
  }

  lemma CloseSum(K: nat, x: real) returns (n: nat)
    requires K >= 1 && Below(x) && Approached(x)
    ensures n >= 14 * K - 1
    ensures var y := Shifted(K - 1, 2000.0 * Series(W, n)); y <= Shifted(K - 1, 2000.0 * x) <= y + 0.4
  {
    var eps := Down(K - 1, 0.4) / 2000.0;
    UpDown(K - 1, 0.4);
    n := NearPartialSum(x, eps, 14 * K - 1);
    ShiftedClose(K - 1, x, Series(W, n), eps);
  }

  /**
   * The same for the limit of the series, which is pi/2: the number is that many digits of
   * 1000*pi, less two units at most.
   */
  lemma AccuracyInTheLimit(K: nat, x: real)
    requires K >= 1 && Below(x) && Approached(x)
    ensures 0.0 <= Shifted(K - 1, 2000.0 * x) - Number(After(K, K).groups) as real < 2.0
  {
    var n := CloseSum(K, x);
    Accuracy(K, n);
  }
}
