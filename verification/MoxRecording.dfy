/**
 * Recording: which queue a sequence of recorded calls leaves, and when replaying the recording
 * itself passes verification.
 */
module MoxRecording {
  import opened MoxLanguage
  import opened MoxReplay
  import opened MoxExactness
  import opened MoxGreedy
  import opened Options

  /** How a call was recorded: plainly, or followed by InAnyOrder or MultipleTimes. */
  datatype Mode = InOrder | AnyOrder(group: string) | MultipleTimes(group: string)

  datatype Op<M> = Op(call: M, mode: Mode)

  function ModeOf<M(==)>(item: Item<M>): Mode {
    match item
    case Single(_) => InOrder
    case Unordered(name, _) => AnyOrder(name)
    case Repeat(name, _, _) => MultipleTimes(name)
  }

  /** The call joins the last item if that is a group of the same class and name, else starts a new item. */
  function Add<M(==)>(q: Queue<M>, op: Op<M>): Queue<M> {
    var n := |q|;
    if op.mode != InOrder && n > 0 && ModeOf(q[n - 1]) == op.mode then
      match q[n - 1]
      case Unordered(name, left) => q[..n - 1] + [Unordered(name, left + [op.call])]
      case Repeat(name, expected, called) => q[..n - 1] + [Repeat(name, expected + multiset{op.call}, called)]
    else
      match op.mode
      case InOrder => q + [Single(op.call)]
      case AnyOrder(name) => q + [Unordered(name, [op.call])]
      case MultipleTimes(name) => q + [Repeat(name, multiset{op.call}, multiset{})]
  }

  function Record<M(==)>(ops: seq<Op<M>>): Queue<M> {
    if ops == [] then [] else Add(Record(ops[..|ops| - 1]), ops[|ops| - 1])
  }

  function CallsOf<M>(ops: seq<Op<M>>): (calls: seq<M>)
    ensures |calls| == |ops|
  {
    seq(|ops|, i requires 0 <= i < |ops| => ops[i].call)
  }

  // ------------------------------------------------------------------ what recording conserves

  /** The item holds exactly these calls, in this order where the item keeps an order. */
  ghost predicate Keeps<M>(item: Item<M>, calls: seq<M>) {
    match item
    case Single(m) => calls == [m]
    case Unordered(_, left) => calls == left
    case Repeat(_, expected, called) => multiset(calls) == expected && called == multiset{}
  }

  /** The item stands for the recorded calls a to b-1. */
  ghost predicate Segment<M>(ops: seq<Op<M>>, item: Item<M>, a: nat, b: nat) {
    a < b <= |ops| && Keeps(item, CallsOf(ops)[a..b]) && forall i :: a <= i < b ==> ops[i].mode == ModeOf(item)
  }

  /** No two neighbours are groups of the same class and name. */
  ghost predicate NoTwins<M>(q: Queue<M>) {
    forall i :: 0 <= i < |q| - 1 && ModeOf(q[i]) == ModeOf(q[i + 1]) ==> q[i].Single?
  }

  /** The items of q stand, in order and without gaps, for the recorded calls; cuts are the borders. */
  ghost predicate Grouped<M>(ops: seq<Op<M>>, q: Queue<M>, cuts: seq<nat>) {
    |cuts| == |q| + 1 && cuts[0] == 0 && cuts[|q|] == |ops| &&
    (forall i :: 0 <= i < |q| ==> Segment(ops, q[i], cuts[i], cuts[i + 1])) && NoTwins(q)
  }

  lemma SegmentExtends<M>(ops: seq<Op<M>>, op: Op<M>, item: Item<M>, a: nat, b: nat)
    requires Segment(ops, item, a, b)
    ensures Segment(ops + [op], item, a, b)
  {
    assert CallsOf(ops + [op])[a..b] == CallsOf(ops)[a..b];
  }

  lemma SegmentJoins<M>(ops: seq<Op<M>>, op: Op<M>, q: Queue<M>, a: nat)
    requires q != [] && op.mode != InOrder && ModeOf(q[|q| - 1]) == op.mode
    requires Segment(ops, q[|q| - 1], a, |ops|)
    ensures var q' := Add(q, op);
      |q'| == |q| && q'[..|q| - 1] == q[..|q| - 1] && ModeOf(q'[|q| - 1]) == op.mode &&
      Segment(ops + [op], q'[|q| - 1], a, |ops| + 1)
  {
    var n := |ops|;
    assert CallsOf(ops + [op])[a..n + 1] == CallsOf(ops)[a..n] + [op.call];
  }

  lemma SegmentStarts<M>(ops: seq<Op<M>>, op: Op<M>, q: Queue<M>)
    requires q == [] || op.mode == InOrder || ModeOf(q[|q| - 1]) != op.mode
    ensures var q' := Add(q, op);
      |q'| == |q| + 1 && q'[..|q|] == q && ModeOf(q'[|q|]) == op.mode &&
      Segment(ops + [op], q'[|q|], |ops|, |ops| + 1)
  {
    var n := |ops|;
    assert CallsOf(ops + [op])[n..n + 1] == [op.call];
  }

  lemma LastReplaced<M>(ops: seq<Op<M>>, op: Op<M>, q: Queue<M>, cuts: seq<nat>, item: Item<M>)
    requires Grouped(ops, q, cuts) && q != [] && ModeOf(item) == ModeOf(q[|q| - 1]) == op.mode != InOrder
    requires Segment(ops + [op], item, cuts[|q| - 1], |ops| + 1)
    ensures Grouped(ops + [op], q[..|q| - 1] + [item], cuts[|q| := |ops| + 1])
  {
    forall i | 0 <= i < |q| - 1
      ensures Segment(ops + [op], q[i], cuts[i], cuts[i + 1])
    {
      SegmentExtends(ops, op, q[i], cuts[i], cuts[i + 1]);
    }
  }

  lemma LastAdded<M>(ops: seq<Op<M>>, op: Op<M>, q: Queue<M>, cuts: seq<nat>, item: Item<M>)
    requires Grouped(ops, q, cuts) && Segment(ops + [op], item, |ops|, |ops| + 1)
    requires q != [] && ModeOf(item) == ModeOf(q[|q| - 1]) ==> ModeOf(item) == InOrder
    ensures Grouped(ops + [op], q + [item], cuts + [|ops| + 1])
  {
    forall i | 0 <= i < |q|
      ensures Segment(ops + [op], q[i], cuts[i], cuts[i + 1])
    {
      SegmentExtends(ops, op, q[i], cuts[i], cuts[i + 1]);
    }
  }

  lemma AddGrouped<M>(ops: seq<Op<M>>, op: Op<M>, q: Queue<M>, cuts: seq<nat>) returns (cuts': seq<nat>)
    requires Grouped(ops, q, cuts)
    ensures Grouped(ops + [op], Add(q, op), cuts')
  {
    var n, q' := |q|, Add(q, op);
    if op.mode != InOrder && n > 0 && ModeOf(q[n - 1]) == op.mode {
      SegmentJoins(ops, op, q, cuts[n - 1]);
      LastReplaced(ops, op, q, cuts, q'[n - 1]);
      cuts' := cuts[n := |ops| + 1];
    } else {
      SegmentStarts(ops, op, q);
      LastAdded(ops, op, q, cuts, q'[n]);
      cuts' := cuts + [|ops| + 1];
    }
  }

  lemma GroupedRecorded<M>(ops: seq<Op<M>>, q: Queue<M>, cuts: seq<nat>)
    requires Grouped(ops, q, cuts)
    ensures Recorded(q)
  {
    forall i | 0 <= i < |q|
      ensures !Empty(q[i]) && Fresh(q[i])
    {
      assert Segment(ops, q[i], cuts[i], cuts[i + 1]);
      ListingSize(CallsOf(ops)[cuts[i]..cuts[i + 1]]);
    }
  }

  /**
   * Recording conserves and normalises: the queue lists the recorded calls in order, cut into
   * runs recorded the same way, and no two neighbouring groups share class and name.
   */
  lemma {:induction false} RecordGroups<M>(ops: seq<Op<M>>) returns (cuts: seq<nat>)
    ensures Grouped(ops, Record(ops), cuts)
    ensures Recorded(Record(ops))
  {
    if ops == [] {
      cuts := [0];
    } else {
      var n := |ops|;
      var fewer := RecordGroups(ops[..n - 1]);
      cuts := AddGrouped(ops[..n - 1], ops[n - 1], Record(ops[..n - 1]), fewer);
      assert ops == ops[..n - 1] + [ops[n - 1]];
    }
    GroupedRecorded(ops, Record(ops), cuts);
  }

  // ------------------------------------------------------------------ replaying the recording itself

  /** Call k comes right after a run of MultipleTimes calls that already has the same call in it. */
  ghost predicate Conflict<M>(ops: seq<Op<M>>, j: nat, k: nat) {
    j < k < |ops| && ops[j].mode.MultipleTimes? && ops[k].mode != ops[j].mode && ops[k].call == ops[j].call &&
    forall i :: j <= i < k ==> ops[i].mode == ops[j].mode
  }

  /** From item i on, no item begins with a call of the repeat group before it. */
  ghost predicate Apart<M>(ops: seq<Op<M>>, q: Queue<M>, cuts: seq<nat>, i: nat)
    requires Grouped(ops, q, cuts)
  {
    forall j :: i <= j < |q| - 1 && q[j].Repeat? && Segment(ops, q[j + 1], cuts[j + 1], cuts[j + 2])
      ==> ops[cuts[j + 1]].call !in q[j].expected
  }

  lemma KeepsMinimal<M>(item: Item<M>, word: seq<M>)
    requires Keeps(item, word)
    ensures Minimal(item, word)
  {
    match item
    case Single(_) =>
    case Unordered(_, _) =>
    case Repeat(_, expected, called) =>
      ListingSize(word);
      assert expected - called == expected && called + multiset(word) == multiset(word);
      forall c | c in word
        ensures c in expected
      {
        assert c in multiset(word);
      }
  }

  /** A satisfied repeat group that does not know the next call makes way for the rest of the queue. */
  lemma SpentPasses<M>(q: Queue<M>, t: seq<M>)
    requires q != [] && Recorded(q) && q[0].Repeat?
    requires t != [] ==> t[0] !in q[0].expected
    requires t == [] ==> |q| == 1
    ensures Accepted(Spent(q), t) <==> Accepted(q[1..], t)
  {
    assert Spent(q)[1..] == q[1..];
  }

  lemma {:induction false} CutsTotal<M>(ops: seq<Op<M>>, q: Queue<M>, cuts: seq<nat>, i: nat)
    requires Grouped(ops, q, cuts) && i <= |q|
    ensures cuts[i] <= |ops| && |ops| - cuts[i] == NeedAll(q[i..])
    ensures i < |q| ==> cuts[i] < |ops|
    decreases |q| - i
  {
    if i == |q| {
    } else {
      CutsTotal(ops, q, cuts, i + 1);
      assert Segment(ops, q[i], cuts[i], cuts[i + 1]);
      KeepsMinimal(q[i], CallsOf(ops)[cuts[i]..cuts[i + 1]]);
      assert q[i..][0] == q[i] && q[i..][1..] == q[i + 1..];
    }
  }

  lemma ApartStep<M>(ops: seq<Op<M>>, q: Queue<M>, cuts: seq<nat>, i: nat)
    requires Grouped(ops, q, cuts) && i < |q| && cuts[i + 1] <= |ops|
    requires i + 1 < |q| ==> cuts[i + 1] < |ops|
    ensures var t := CallsOf(ops)[cuts[i + 1]..];
      Apart(ops, q, cuts, i) <==>
        Apart(ops, q, cuts, i + 1) && (q[i].Repeat? && t != [] ==> t[0] !in q[i].expected)
  {
    if i + 1 < |q| { assert Segment(ops, q[i + 1], cuts[i + 1], cuts[i + 2]); }
  }

  lemma NeedsSome<M>(q: Queue<M>)
    requires q != [] && Recorded(q)
    ensures NeedAll(q) > 0
  {
    if q[0].Repeat? { assert q[0].expected - q[0].called == q[0].expected; }
  }

  lemma HeadReplays<M(!new)>(q: Queue<M>, rest: Queue<M>, word: seq<M>, t: seq<M>)
    requires q != [] && rest == q[1..] && Recorded(q) && Minimal(q[0], word) && |t| == NeedAll(rest)
    ensures Accepted(q, word + t) <==> Accepted(rest, t) && (q[0].Repeat? && t != [] ==> t[0] !in q[0].expected)
  {
    WordSpent(q, word);
    ReplayAppend(q, word, t);
    if Accepted(q, word + t) {
      HeadForced(q, word, t);
    } else if q[0].Repeat? && (t != [] ==> t[0] !in q[0].expected) {
      if |q| > 1 { NeedsSome(rest); }
      SpentPasses(q, t);
    }
  }

  lemma ItemReplays<M(!new)>(q: Queue<M>, i: nat, calls: seq<M>, a: nat, b: nat)
    requires i < |q| && Recorded(q) && a <= b <= |calls| && Keeps(q[i], calls[a..b])
    requires |calls| - b == NeedAll(q[i + 1..])
    ensures Accepted(q[i..], calls[a..]) <==>
      Accepted(q[i + 1..], calls[b..]) && (q[i].Repeat? && calls[b..] != [] ==> calls[b..][0] !in q[i].expected)
  {
    KeepsMinimal(q[i], calls[a..b]);
    assert calls[a..] == calls[a..b] + calls[b..];
    HeadReplays(q[i..], q[i + 1..], calls[a..b], calls[b..]);
  }

  lemma {:induction false} ApartReplays<M(!new)>(ops: seq<Op<M>>, q: Queue<M>, cuts: seq<nat>, i: nat)
    requires Grouped(ops, q, cuts) && i <= |q| && cuts[i] <= |ops|
    ensures Accepted(q[i..], CallsOf(ops)[cuts[i]..]) <==> Apart(ops, q, cuts, i)
    decreases |q| - i
  {
    if i == |q| {
    } else {
      CutsTotal(ops, q, cuts, i);
      CutsTotal(ops, q, cuts, i + 1);
      ApartReplays(ops, q, cuts, i + 1);
      ApartStep(ops, q, cuts, i);
      GroupedRecorded(ops, q, cuts);
      ItemReplays(q, i, CallsOf(ops), cuts[i], cuts[i + 1]) by {
        assert Segment(ops, q[i], cuts[i], cuts[i + 1]);
      }
    }
  }

  lemma ConflictBorder<M>(ops: seq<Op<M>>, q: Queue<M>, cuts: seq<nat>, j: nat, k: nat, i: nat)
    requires Grouped(ops, q, cuts) && Conflict(ops, j, k) && i < |q| && cuts[i] <= k - 1 < cuts[i + 1]
    ensures i + 1 < |q| && cuts[i + 1] == k && q[i].Repeat? && ops[k].call in q[i].expected
  {
    assert Segment(ops, q[i], cuts[i], cuts[i + 1]);
    assert ops[k - 1].mode == ModeOf(q[i]);
    assert ModeOf(q[i]).MultipleTimes?;
    if i > 0 {
      assert Segment(ops, q[i - 1], cuts[i - 1], cuts[i]);
      assert ops[cuts[i] - 1].mode == ModeOf(q[i - 1]) != ModeOf(q[i - 1 + 1]);
    }
    var word := CallsOf(ops)[cuts[i]..cuts[i + 1]];
    assert word[j - cuts[i]] == ops[j].call;
    assert ops[j].call in multiset(word);
  }

  lemma {:induction false} FindSegment<M>(ops: seq<Op<M>>, q: Queue<M>, cuts: seq<nat>, k: nat, n: nat) returns (i: nat)
    requires Grouped(ops, q, cuts) && n <= |q| && k < cuts[n]
    ensures i < n && cuts[i] <= k < cuts[i + 1]
    decreases n
  {
    assert n > 0;
    i := n - 1;
    if k < cuts[i] { i := FindSegment(ops, q, cuts, k, n - 1); }
  }

  lemma BorderConflict<M>(ops: seq<Op<M>>, q: Queue<M>, cuts: seq<nat>, i: nat) returns (j: nat)
    requires Grouped(ops, q, cuts) && i < |q| - 1 && q[i].Repeat?
    requires cuts[i + 1] < |ops| && ops[cuts[i + 1]].call in q[i].expected
    ensures Conflict(ops, j, cuts[i + 1])
  {
    var k := cuts[i + 1];
    assert Segment(ops, q[i], cuts[i], k) && Segment(ops, q[i + 1], k, cuts[i + 2]);
    var word := CallsOf(ops)[cuts[i]..k];
    assert ops[k].call in multiset(word);
    var p :| 0 <= p < |word| && word[p] == ops[k].call;
    j := cuts[i] + p;
  }

  lemma ApartIffNoConflict<M>(ops: seq<Op<M>>, q: Queue<M>, cuts: seq<nat>)
    requires Grouped(ops, q, cuts)
    ensures Apart(ops, q, cuts, 0) <==> !exists j: nat, k: nat :: Conflict(ops, j, k)
  {
    if j: nat, k: nat :| Conflict(ops, j, k) {
      var i := FindSegment(ops, q, cuts, k - 1, |q|);
      ConflictBorder(ops, q, cuts, j, k, i);
      assert Segment(ops, q[i + 1], cuts[i + 1], cuts[i + 2]);
    }
    if !Apart(ops, q, cuts, 0) {
      var i :| 0 <= i < |q| - 1 && q[i].Repeat? && Segment(ops, q[i + 1], cuts[i + 1], cuts[i + 2])
               && ops[cuts[i + 1]].call in q[i].expected;
      var j := BorderConflict(ops, q, cuts, i);
    }
  }

  /**
   * Replaying exactly what was recorded, in the recorded order, passes verification if and
   * only if no call recorded right after a MultipleTimes group repeats a call of that group.
   */
  lemma SelfReplay<M(!new)>(ops: seq<Op<M>>)
    ensures Accepted(Record(ops), CallsOf(ops)) <==> !exists j: nat, k: nat :: Conflict(ops, j, k)
  {
    var q := Record(ops);
    var cuts := RecordGroups(ops);
    ApartReplays(ops, q, cuts, 0);
    assert q[0..] == q && CallsOf(ops)[0..] == CallsOf(ops);
    ApartIffNoConflict(ops, q, cuts);
  }
}
