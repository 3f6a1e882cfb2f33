/**
 * The spigot of benchmark/pi.c as arithmetic on sequences: one carry sweep over the
 * mixed-radix cells, the run of sweeps that drops 14 cells per printed group, and the
 * rational value that the cells denote.
 */
module PiSpigot {

  const BASE := 10000

  /** The digit left in cell b: b-1 is the numerator and 2b-1 the radix of the cell. */
  function Rest(t: nat, b: nat): nat
    requires b >= 1
  {
    t % (2 * b - 1)
  }

  /** The carry into cell b-1. */
  function Carry(t: nat, b: nat): nat
    requires b >= 1
  {
    t / (2 * b - 1) * (b - 1)
  }

  /** One pass of the inner loop, from cell b down to cell 1, with carry d coming in. */
  function Sweep(f: seq<nat>, b: nat, d: nat): (r: (seq<nat>, nat))
    requires b < |f|
    ensures |r.0| == |f|
    decreases b
  {
    if b == 0 then (f, d)
    else
      var t := d + f[b] * BASE;
      var f' := f[b := Rest(t, b)];
      if b == 1 then (f', t) else Sweep(f', b - 1, Carry(t, b))
  }

  /** What the program holds between two sweeps: the cells, the held-back remainder, the groups printed. */
  datatype State = State(f: seq<nat>, e: nat, groups: seq<nat>)

  function Initial(c: nat): State {
    State(seq(c, _ => BASE / 5) + [0], 0, [])
  }

  function Next(s: State, c: nat): (s': State)
    requires c < |s.f|
    ensures |s'.f| == |s.f| && |s'.groups| == |s.groups| + 1
  {
    var (f, d) := Sweep(s.f, c, 0);
    State(f, d % BASE, s.groups + [s.e + d / BASE])
  }

  /** The state after j sweeps when the program starts with c = 14 * K. */
  function After(K: nat, j: nat): (s: State)
    requires j <= K
    ensures |s.f| == 14 * K + 1 && |s.groups| == j
    decreases j
  {
    if j == 0 then Initial(14 * K) else Next(After(K, j - 1), 14 * (K - j + 1))
  }

  /** The number that a list of base-10000 groups spells. */
  function Number(groups: seq<nat>): nat {
    if groups == [] then 0 else BASE * Number(groups[..|groups| - 1]) + groups[|groups| - 1]
  }

  // ------------------------------------------------------------------ the value of the cells

  /** n copies of w. */
  ghost function Times(n: nat, w: real): real {
    if n == 0 then 0.0 else Times(n - 1, w) + w
  }

  /** n/m of x. */
  ghost function Part(n: nat, m: nat, x: real): real
    requires m > 0
  {
    n as real * x / m as real
  }

  /** The weight of cell b: 1, 1/3, 1/3*2/5, 1/3*2/5*3/7, ... (cell 0 is never read). */
  ghost function W(b: nat): real {
    if b <= 1 then 1.0 else Part(b - 1, 2 * b - 1, W(b - 1))
  }

  /** The weight of cell b, seen from cell b-1: 2b-1 of the one are b-1 of the other. */
  ghost predicate WeightAt(w: nat -> real, b: nat)
    requires b >= 1
  {
    if b == 1 then w(1) == 1.0 else Times(2 * b - 1, w(b)) == Times(b - 1, w(b - 1))
  }

  /** w weighs cells whose radices are 2b-1 and whose numerators are b-1. */
  ghost predicate Weights(w: nat -> real) {
    forall b: nat :: b >= 1 ==> WeightAt(w, b)
  }

  /** What cells 1 to n denote. */
  ghost function Value(w: nat -> real, f: seq<nat>, n: nat): real
    requires n < |f|
  {
    if n == 0 then 0.0 else Value(w, f, n - 1) + Times(f[n], w(n))
  }

  /** The partial sum of the series whose double is pi. */
  ghost function Series(w: nat -> real, n: nat): real {
    if n == 0 then 0.0 else Series(w, n - 1) + w(n)
  }

  lemma {:induction false} TimesIsProduct(n: nat, w: real)
    ensures Times(n, w) == n as real * w
  {
    if n == 0 {
    } else {
      TimesIsProduct(n - 1, w);
    }
  }

  lemma {:induction false} TimesSum(m: nat, n: nat, w: real)
    ensures Times(m + n, w) == Times(m, w) + Times(n, w)
  {
    if n == 0 {
    } else {
      TimesSum(m, n - 1, w);
    }
  }

  lemma {:induction false} TimesBase(n: nat, w: real)
    ensures Times(n * BASE, w) == 10000.0 * Times(n, w)
  {
    TimesIsProduct(n * BASE, w);
    TimesIsProduct(n, w);
  }

  lemma PartTimes(n: nat, m: nat, x: real)
    requires m > 0
    ensures Times(m, Part(n, m, x)) == Times(n, x)
  {
    TimesIsProduct(m, Part(n, m, x));
    TimesIsProduct(n, x);
  }

  lemma WeightsOfPi()
    ensures Weights(W)
  {
    forall b: nat | b >= 1
      ensures WeightAt(W, b)
    {
      if b > 1 { PartTimes(b - 1, 2 * b - 1, W(b - 1)); }
    }
  }

  lemma {:induction false} ValueFrame(w: nat -> real, f: seq<nat>, g: seq<nat>, n: nat)
    requires n < |f| && n < |g|
    requires forall k :: 1 <= k <= n ==> f[k] == g[k]
    ensures Value(w, f, n) == Value(w, g, n)
  {
    if n == 0 {
    } else {
      ValueFrame(w, f, g, n - 1);
    }
  }

  lemma {:induction false} SweepFrame(f: seq<nat>, b: nat, d: nat)
    requires b < |f|
    ensures forall k :: b < k < |f| ==> Sweep(f, b, d).0[k] == f[k]
    ensures Sweep(f, b, d).0[0] == f[0]
    decreases b
  {
    if b == 0 {
    } else {
      var t := d + f[b] * BASE;
      if b > 1 { SweepFrame(f[b := Rest(t, b)], b - 1, Carry(t, b)); }
    }
  }

  lemma OneMore(q: nat, m: nat)
    requires q >= 1
    ensures (q - 1) * m >= 0 && q * m == (q - 1) * m + m
  {
  }

  lemma {:induction false} TimesNested(q: nat, m: nat, w: real)
    ensures q * m >= 0 && Times(q * m, w) == Times(q, Times(m, w))
  {
    if q == 0 {
    } else {
      TimesNested(q - 1, m, w);
      OneMore(q, m);
      TimesSum((q - 1) * m, m, w);
    }
  }

  /** p of the one weight are as much as p' of the other, if m of the one are as much as n of the other. */
  lemma Exchange(w: real, w': real, m: nat, n: nat, q: nat, p: nat, p': nat)
    requires Times(m, w) == Times(n, w') && p == q * m && p' == q * n
    ensures Times(p, w) == Times(p', w')
  {
    TimesNested(q, m, w);
    TimesNested(q, n, w');
  }

  lemma Quotient(t: nat, m: nat) returns (q: nat, p: nat)
    requires m >= 1
    ensures q == t / m && p == q * m && t == p + t % m
  {
    q := t / m;
    p := q * m;
  }

  lemma ColumnConserved(w: real, w': real, b: nat, t: nat)
    requires b >= 2 && Times(2 * b - 1, w) == Times(b - 1, w')
    ensures Times(t, w) == Times(Carry(t, b), w') + Times(Rest(t, b), w)
  {
    var q, p := Quotient(t, 2 * b - 1);
    Exchange(w, w', 2 * b - 1, b - 1, q, p, Carry(t, b));
    TimesSum(p, Rest(t, b), w);
  }

  /** A sweep loses nothing: what it multiplies by 10000 comes back as the number d plus the new cells. */
  lemma {:induction false} SweepConserves(w: nat -> real, f: seq<nat>, b: nat, d: nat)
    requires Weights(w) && 1 <= b < |f|
    ensures var (g, out) := Sweep(f, b, d);
      10000.0 * Value(w, f, b) + Times(d, w(b)) == Times(out, 1.0) + Value(w, g, b)
    decreases b
  {
    var t := d + f[b] * BASE;
    TimesSum(d, f[b] * BASE, w(b));
    TimesBase(f[b], w(b));
    assert WeightAt(w, b);
    if b <= 1 {
    } else {
      var f' := f[b := Rest(t, b)];
      SweepConserves(w, f', b - 1, Carry(t, b));
      ColumnConserved(w(b), w(b - 1), b, t);
      ValueFrame(w, f, f', b - 1);
      SweepFrame(f', b - 1, Carry(t, b));
    }
  }

  // ------------------------------------------------------------------ digit bounds

  /** Cell k holds a digit of radix 2k-1. */
  ghost predicate Digits(f: seq<nat>, n: nat)
    requires n < |f|
  {
    forall k :: 1 <= k <= n ==> f[k] <= 2 * k - 2
  }

  lemma MulMono(a: int, b: int, m: int)
    requires a >= b && m >= 0
    ensures a * m >= b * m
  {
  }

  lemma DivBelow(t: int, m: int, x: int)
    requires 0 <= t < x * m && m > 0
    ensures 0 <= t / m < x
  {
    if t / m >= x {
      assert (t / m) * m >= x * m by { MulMono(t / m, x, m); }
    }
  }

  /** What the largest carry may be when cell b is about to be processed, for cells of size at most `cell`. */
  lemma CarryStep(b: nat, d: nat, cell: nat)
    requires b >= 1 && cell <= 2 * b - 2 && d < 2 * BASE * b
    ensures var t := d + cell * BASE;
      t < 2 * BASE * (2 * b - 1) && t / (2 * b - 1) < 2 * BASE &&
      (b > 1 ==> Carry(t, b) < 2 * BASE * (b - 1))
  {
    var t := d + cell * BASE;
    DivBelow(t, 2 * b - 1, 2 * BASE);
    if b > 1 { MulMono(2 * BASE - 1, t / (2 * b - 1), b - 1); }
  }

  lemma {:induction false} SweepDigits(f: seq<nat>, b: nat, d: nat)
    requires b < |f|
    ensures Digits(Sweep(f, b, d).0, b)
    decreases b
  {
    if b == 0 {
    } else {
      var t := d + f[b] * BASE;
      var f' := f[b := Rest(t, b)];
      if b > 1 {
        SweepDigits(f', b - 1, Carry(t, b));
        SweepFrame(f', b - 1, Carry(t, b));
      }
    }
  }

  /** After the first sweep every sweep yields d < 20000. */
  lemma {:induction false} LaterSweepSmall(f: seq<nat>, b: nat, d: nat)
    requires 1 <= b < |f| && Digits(f, b) && d < 2 * BASE * b
    ensures Sweep(f, b, d).1 < 2 * BASE
    decreases b
  {
    CarryStep(b, d, f[b]);
    if b <= 1 {
    } else {
      var t := d + f[b] * BASE;
      LaterSweepSmall(f[b := Rest(t, b)], b - 1, Carry(t, b));
    }
  }

  lemma FirstCarryStep(b: nat, d: nat, cell: nat)
    requires b >= 1 && cell <= BASE / 5 && d < 2000 * BASE
    ensures var t := d + cell * BASE;
      t < 4000 * BASE && t / (2 * b - 1) < 4000 * BASE &&
      (b > 1 ==> Carry(t, b) < 2000 * BASE)
  {
    var t := d + cell * BASE;
    var m := 2 * b - 1;
    assert t / m <= t by { DivBelow(t, m, t + 1) by { MulMono(m, 1, t + 1); } }
    if b > 1 {
      var q := t / m;
      assert q * m <= t;
      assert q * m == 2 * (q * (b - 1)) + q by { assert m == 2 * (b - 1) + 1; }
    }
  }

  /** The first sweep starts from cells 2000 and yields d < 40000000. */
  lemma {:induction false} FirstSweepSmall(f: seq<nat>, b: nat, d: nat)
    requires 1 <= b < |f| && d < 2000 * BASE
    requires forall k :: 1 <= k <= b ==> f[k] <= BASE / 5
    ensures Sweep(f, b, d).1 < 4000 * BASE
    decreases b
  {
    FirstCarryStep(b, d, f[b]);
    if b <= 1 {
    } else {
      var t := d + f[b] * BASE;
      FirstSweepSmall(f[b := Rest(t, b)], b - 1, Carry(t, b));
    }
  }

  lemma {:induction false} AfterDigits(K: nat, j: nat)
    requires 1 <= j <= K
    ensures Digits(After(K, j).f, 14 * (K - j + 1)) && After(K, j).e < BASE
  {
    SweepDigits(After(K, j - 1).f, 14 * (K - j + 1), 0);
  }

  /** The first printed group is below 4000; no later one exceeds 10000. */
  lemma {:induction false} GroupBounds(K: nat, j: nat)
    requires j <= K
    ensures forall i :: 0 <= i < j ==> After(K, j).groups[i] <= if i == 0 then 3999 else BASE
    decreases j
  {
    if j == 0 {
    } else {
      GroupBounds(K, j - 1);
      var s := After(K, j - 1);
      var c := 14 * (K - j + 1);
      if j == 1 {
        FirstSweepSmall(s.f, c, 0);
        DivBelow(Sweep(s.f, c, 0).1, BASE, 4000);
      } else {
        AfterDigits(K, j - 1);
        LaterSweepSmall(s.f, c, 0);
      }
    }
  }
}
