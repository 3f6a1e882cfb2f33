/**
 * The program text of benchmark/pi.c on 32-bit integers: the arithmetic of the newtype Int32
 * is checked, so every assignment below is also a proof that nothing overflows.
 */
module PiProgram {
  import opened PiSpigot

  newtype Int32 = x: int | -0x8000_0000 <= x <= 0x7fff_ffff

  ghost predicate NonNegative(s: seq<Int32>) {
    forall i :: 0 <= i < |s| ==> s[i] >= 0
  }

  ghost function Nats(s: seq<Int32>): (r: seq<nat>)
    requires NonNegative(s)
    ensures |r| == |s| && forall i :: 0 <= i < |s| ==> r[i] == s[i] as int
  {
    seq(|s|, i requires 0 <= i < |s| => s[i] as int)
  }

  /** Up to this many groups the bounds below keep every intermediate value within 32 bits; the program prints 200. */
  const MAX_GROUPS := 3834

  /** Cells and carry when cell b is about to be processed, in the first sweep or in a later one. */
  ghost predicate Bounded(cells: seq<nat>, b: nat, d: nat, first: bool)
    requires b < |cells|
  {
    if first then d < 2000 * BASE && forall k :: 1 <= k <= b ==> cells[k] <= BASE / 5
    else d < 2 * BASE * b && Digits(cells, b)
  }

  /** The sweep that has reached cell b with carry d is within bounds and will end in `answer`. */
  ghost predicate Underway(cells: seq<nat>, b: nat, d: nat, first: bool, answer: (seq<nat>, nat))
    requires b < |cells|
  {
    Bounded(cells, b, d, first) && Sweep(cells, b, d) == answer
  }

  /** The bound on d when cell b has been added to it: below 112000000 in the program's own 2800 cells. */
  function Peak(b: nat, first: bool): nat
    requires b >= 1
  {
    if first then 4000 * BASE else 2 * BASE * (2 * b - 1)
  }

  /** Dividing out cell b stays within 32 bits and is one step of the sweep. */
  lemma UnderwayStep(cells: seq<nat>, b: nat, d: nat, first: bool, answer: (seq<nat>, nat))
    requires 1 <= b < |cells| <= 14 * MAX_GROUPS + 1 && Underway(cells, b, d, first, answer)
    ensures var t := d + cells[b] * BASE;
      var cells' := cells[b := Rest(t, b)];
      t < Peak(b, first) < 0x7fff_ffff && (b <= 2800 ==> t < 112000000) &&
      if b == 1 then (cells', t) == answer
      else Carry(t, b) <= 0x7fff_ffff && Underway(cells', b - 1, Carry(t, b), first, answer)
  {
    if first {
      FirstCarryStep(b, d, cells[b]);
    } else {
      CarryStep(b, d, cells[b]);
    }
  }

  lemma QuotientShrinks(t: int, m: int)
    requires t >= 0 && m >= 1
    ensures 0 <= t / m <= t
  {
    MulMono(m, 1, t + 1);
    DivBelow(t, m, t + 1);
  }

  /** Before sweep j+1 the cells are in range, and what the sweep yields can be printed. */
  lemma SweepReady(K: nat, j: nat, s: State, c: nat)
    requires j < K <= MAX_GROUPS && s == After(K, j) && c == 14 * (K - j)
    ensures Bounded(s.f, c, 0, j == 0) && Sweep(s.f, c, 0).1 < 4000 * BASE && s.e < BASE
    ensures After(K, j + 1) == Next(s, c)
  {
    if j == 0 {
      FirstSweepSmall(s.f, c, 0);
    } else {
      AfterDigits(K, j);
      LaterSweepSmall(s.f, c, 0);
    }
  }

  class Program {
    const a: Int32 := 10000
    var b: Int32
    var c: Int32
    var d: Int32
    var e: Int32
    var g: Int32
    const f: array<Int32>
    var stdout: seq<Int32>

    /** Storage before main: a is 10000, c is 14 * K, everything else is zero. */
    constructor (K: nat)
      requires 1 <= K <= MAX_GROUPS
      ensures b == 0 && c == 14 * K as Int32 && e == 0 && stdout == []
      ensures f.Length == 14 * K + 1 && fresh(f) && forall i :: 0 <= i < f.Length ==> f[i] == 0
    {
      b, c, d, e, g := 0, 14 * K as Int32, 0, 0, 0;
      stdout := [];
      f := new Int32[14 * K + 1](_ => 0);
    }

    ghost predicate Shaped()
      reads this, f
    {
      0 <= c && c as int < f.Length <= 14 * MAX_GROUPS + 1 && NonNegative(f[..])
    }

    ghost function Cells(): seq<nat>
      requires Shaped()
      reads this, f
    {
      Nats(f[..])
    }

    /** The first for loop: cells 0 to c-1 become 2000. */
    method Fill()
      requires Shaped() && b == 0 && f[c] == 0 && c as int == f.Length - 1
      modifies `b, f
      ensures Shaped() && Cells() == Initial(c as nat).f
    {
      while b - c != 0
        invariant 0 <= b <= c && f[c] == 0
        invariant forall i :: 0 <= i < b as int ==> f[i] == 2000
        invariant forall i :: b as int <= i < f.Length ==> f[i] >= 0
        decreases c - b
      {
        f[b] := a / 5;
        b := b + 1;
      }
      assert Cells() == Initial(c as nat).f;
    }

    /** The condition of the inner for loop up to its last operand: one cell is divided out. */
    method DivideCell()
      requires Shaped() && 1 <= b <= c && g == 2 * b && d >= 0
      requires d as int + Cells()[b] * BASE <= 0x7fff_ffff
      modifies `b, `d, `g, f
      ensures Shaped() && b == old(b) - 1 && g == 2 * b && d >= 0
      ensures var t := old(d as nat + Cells()[b] * BASE);
        Cells() == old(Cells())[old(b) as nat := Rest(t, old(b) as nat)] &&
        d as int == t / (2 * old(b) as nat - 1) && (b == 0 ==> d as int == t)
    {
      d := d + f[b] * a;
      g := g - 1;
      f[b] := d % g;
      assert Cells() == old(Cells())[b as nat := Rest(d as nat, b as nat)];
      QuotientShrinks(d as int, g as int);
      d := d / g;
      g := g - 1;
      b := b - 1;
    }

    /** The increment of the inner for loop. */
    method ScaleCarry(ghost t: nat, ghost cell: nat)
      requires cell >= 2 && b as int == cell - 1 && d as int == t / (2 * cell - 1) && Carry(t, cell) <= 0x7fff_ffff
      modifies `d
      ensures d as int == Carry(t, cell)
    {
      d := d * b;
    }

    /** The condition of the inner for loop, which fails once cell 1 is divided out, and its increment. */
    method SweepCell(ghost first: bool, ghost answer: (seq<nat>, nat)) returns (more: bool)
      requires Shaped() && 1 <= b <= c && g == 2 * b && d >= 0
      requires Underway(Cells(), b as nat, d as nat, first, answer)
      modifies `b, `d, `g, f
      ensures Shaped() && b == old(b) - 1 && g == 2 * b && d >= 0 && more == (b != 0)
      ensures if more then Underway(Cells(), b as nat, d as nat, first, answer) else (Cells(), d as nat) == answer
    {
      ghost var cell, t := b as nat, d as nat + Cells()[b] * BASE;
      UnderwayStep(Cells(), cell, d as nat, first, answer);
      DivideCell();
      more := b != 0;
      if more {
        ScaleCarry(t, cell);
      }
    }

    /** The inner for loop. */
    method CarrySweep(ghost first: bool)
      requires Shaped() && c >= 1 && d == 0 && g == c * 2
      requires Bounded(Cells(), c as nat, 0, first)
      modifies `b, `d, `g, f
      ensures Shaped() && d >= 0 && (Cells(), d as nat) == Sweep(old(Cells()), c as nat, 0)
    {
      b := c;
      ghost var answer := Sweep(Cells(), c as nat, 0);
      var more := true;
      while more
        invariant Shaped() && 0 <= b <= c && g == 2 * b && d >= 0 && more == (b != 0)
        invariant if more then Underway(Cells(), b as nat, d as nat, first, answer) else (Cells(), d as nat) == answer
        decreases b
      {
        more := SweepCell(first, answer);
      }
    }

    /** The increment of the outer for loop. */
    method EmitGroup()
      requires c >= 14 && 0 <= d <= 0x7000_0000 && 0 <= e < 10000 && NonNegative(stdout)
      modifies `c, `e, `stdout
      ensures c == old(c) - 14 && e as int == d as int % BASE && NonNegative(stdout)
      ensures Nats(stdout) == old(Nats(stdout)) + [old(e) as nat + d as nat / BASE]
    {
      c := c - 14;
      stdout := stdout + [e + d / a];
      e := d % a;
    }

    ghost predicate Holds(s: State)
      reads this, f
    {
      Shaped() && NonNegative(stdout) && Cells() == s.f && e as int == s.e && Nats(stdout) == s.groups
    }

    /** j groups have been printed. */
    ghost predicate Printed(K: nat, j: nat)
      reads this, f
    {
      j <= K <= MAX_GROUPS && c as int == 14 * (K - j) && Holds(After(K, j))
    }

    /** The body and the increment of the outer for loop. */
    method PrintGroup(ghost K: nat, ghost j: nat)
      requires Printed(K, j) && j < K && d == 0 && g == c * 2
      modifies this, f
      ensures Printed(K, j + 1)
    {
      SweepReady(K, j, After(K, j), c as nat);
      CarrySweep(j == 0);
      EmitGroup();
    }

    /** main: one group of four digits per sweep, 14 cells fewer each time. */
    method Run(K: nat)
      requires 1 <= K <= MAX_GROUPS && b == 0 && c == 14 * K as Int32 && e == 0 && stdout == []
      requires f.Length == 14 * K + 1 && forall i :: 0 <= i < f.Length ==> f[i] == 0
      modifies this, f
      ensures NonNegative(stdout) && Nats(stdout) == After(K, K).groups
    {
      Fill();
      assert Printed(K, 0);
      ghost var j := 0;
      while true
        invariant Printed(K, j)
        decreases K - j
      {
        d, g := 0, c * 2;
        if g == 0 {
          break;
        }
        PrintGroup(K, j);
        j := j + 1;
      }
    }
  }
}
