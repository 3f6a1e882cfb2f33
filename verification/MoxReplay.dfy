/**
 * Replay as steps on the queue, one per call: how mox consumes the expectations, and which
 * traces it accepts. Proved against the language of MoxLanguage.
 */
module MoxReplay {
  import opened MoxLanguage
  import opened MoxStrikeOff
  import opened Options

  // ------------------------------------------------------------------ one call

  /** left[i] is the first expectation that the call matches. */
  ghost predicate FirstMatch<M>(eq: (M, M) -> bool, left: seq<M>, i: nat, c: M) {
    i < |left| && eq(left[i], c) && forall j :: 0 <= j < i ==> !eq(left[j], c)
  }

  function Without<M>(left: seq<M>, i: nat): seq<M>
    requires i < |left|
  {
    left[..i] + left[i + 1..]
  }

  /** The queue once an unordered group has only `left` left: an exhausted group is not put back. */
  function PutBack<M>(name: string, left: seq<M>, rest: Queue<M>): Queue<M> {
    if left == [] then rest else [Unordered(name, left)] + rest
  }

  /**
   * The call c is consumed and leaves the queue q'. Whether a repeat group is satisfied
   * depends on the order in which sets are iterated; all that is used of a positive answer is
   * that the group's expectations can be assigned.
   */
  ghost predicate Consumes<M(!new)>(cmp: Comparison<M>, q: Queue<M>, c: M, q': Queue<M>) {
    q != [] &&
    match q[0]
    case Single(m) => cmp.meets(m, c) && q' == q[1..]
    case Unordered(name, left) =>
      exists i :: FirstMatch(cmp.meets, left, i, c) && q' == PutBack(name, Without(left, i), q[1..])
    case Repeat(name, expected, called) =>
      if exists m :: m in expected && cmp.meets(m, c) then
        q' == [Repeat(name, expected, called + multiset{c})] + q[1..]
      else
        expected != multiset{} && Assignable(cmp.satisfies, expected, called) && Consumes(cmp, q[1..], c, q')
  }

  /** The call meets the expectation m, which is what the replayed call answers with. */
  ghost predicate Answers<M(!new)>(cmp: Comparison<M>, q: Queue<M>, c: M, m: M) {
    q != [] &&
    match q[0]
    case Single(x) => cmp.meets(x, c) && m == x
    case Unordered(_, left) => exists i: nat :: FirstMatch(cmp.meets, left, i, c) && m == left[i]
    case Repeat(_, expected, called) =>
      if exists x :: x in expected && cmp.meets(x, c) then m in expected && cmp.meets(m, c)
      else expected != multiset{} && Assignable(cmp.satisfies, expected, called) && Answers(cmp, q[1..], c, m)
  }

  /** A repeat group is found unsatisfied: it expects nothing, or a strike-off ends with expectations left. */
  ghost predicate Unsatisfied<M(!new)>(sat: (M, M) -> bool, expected: multiset<M>, called: multiset<M>) {
    expected == multiset{} || Stuck(sat, expected, called)
  }

  /** UnexpectedMethodCallError: nothing that may be called at this point meets the call. */
  ghost predicate Refuses<M(!new)>(cmp: Comparison<M>, q: Queue<M>, c: M) {
    q == [] ||
    match q[0]
    case Single(m) => !cmp.meets(m, c)
    case Unordered(_, left) => !exists m :: m in left && cmp.meets(m, c)
    case Repeat(_, expected, called) =>
      (!exists m :: m in expected && cmp.meets(m, c)) &&
      (Unsatisfied(cmp.satisfies, expected, called) ||
        (expected != multiset{} && Assignable(cmp.satisfies, expected, called) && Refuses(cmp, q[1..], c)))
  }

  /** ExpectedMethodCallsError: something is still expected. */
  ghost predicate Unfinished<M(!new)>(cmp: Comparison<M>, q: Queue<M>) {
    q != [] && (|q| == 1 && q[0].Repeat? ==> Unsatisfied(cmp.satisfies, q[0].expected, q[0].called))
  }

  /** The trace replays up to a call that is refused, or to its end with something still expected. */
  ghost predicate Fails<M(!new)>(cmp: Comparison<M>, q: Queue<M>, trace: seq<M>)
    decreases |trace|
  {
    if trace == [] then Unfinished(cmp, q)
    else Refuses(cmp, q, trace[0]) || exists q' :: Consumes(cmp, q, trace[0], q') && Fails(cmp, q', trace[1..])
  }

  /** What _Verify lets pass: an empty queue, or a last repeat group that is satisfied. */
  ghost predicate Finished<M(!new)>(cmp: Comparison<M>, q: Queue<M>) {
    q == [] ||
    (|q| == 1 && q[0].Repeat? && q[0].expected != multiset{} && Assignable(cmp.satisfies, q[0].expected, q[0].called))
  }

  /** The trace replays without an error and then passes _Verify. */
  ghost predicate Replays<M(!new)>(cmp: Comparison<M>, q: Queue<M>, trace: seq<M>)
    decreases |trace|
  {
    if trace == [] then Finished(cmp, q)
    else exists q' :: Consumes(cmp, q, trace[0], q') && Replays(cmp, q', trace[1..])
  }

  // ------------------------------------------------------------------ soundness

  lemma FirstSegment<M(!new)>(cmp: Comparison<M>, q: Queue<M>, trace: seq<M>, k: nat)
    requires q != [] && k <= |trace| && Fulfils(cmp, q[0], trace[..k]) && Describes(cmp, q[1..], trace[k..])
    ensures Describes(cmp, q, trace)
  {
  }

  lemma WithoutMultiset<M>(left: seq<M>, i: nat)
    requires i < |left|
    ensures multiset(Without(left, i)) == multiset(left) - multiset{left[i]}
  {
    assert left == left[..i] + [left[i]] + left[i + 1..];
  }

  lemma PrefixPlus<M>(c: M, t: seq<M>, k: nat)
    requires k <= |t|
    ensures ([c] + t)[..k + 1] == [c] + t[..k] && ([c] + t)[k + 1..] == t[k..]
    ensures multiset([c] + t[..k]) == multiset{c} + multiset(t[..k])
  {
  }

  lemma AddPair<M(!new)>(eq: (M, M) -> bool, pairs: seq<(M, M)>, left: seq<M>, i: nat, c: M, seg: seq<M>)
    requires i < |left| && eq(left[i], c)
    requires Assigns(eq, pairs, multiset(Without(left, i)), multiset(seg)) && Calls(pairs) == multiset(seg)
    ensures var longer := pairs + [(left[i], c)];
      Assigns(eq, longer, multiset(left), multiset([c] + seg)) && Calls(longer) == multiset([c] + seg)
  {
    WithoutMultiset(left, i);
    AssignOne(eq, pairs, left[i], c, multiset(Without(left, i)), multiset(seg));
    assert multiset([c] + seg) == multiset(seg) + multiset{c};
    assert multiset(left) == multiset(left) - multiset{left[i]} + multiset{left[i]};
  }

  lemma ConsumeUnordered<M(!new)>(cmp: Comparison<M>, name: string, left: seq<M>, i: nat, c: M, seg: seq<M>)
    requires FirstMatch(cmp.meets, left, i, c) && Fulfils(cmp, Unordered(name, Without(left, i)), seg)
    ensures Fulfils(cmp, Unordered(name, left), [c] + seg)
  {
    var fewer := Without(left, i);
    var pairs :| Assigns(cmp.meets, pairs, multiset(fewer), multiset(seg)) && Calls(pairs) == multiset(seg);
    AddPair(cmp.meets, pairs, left, i, c, seg);
  }

  lemma ConsumeRepeat<M(!new)>(cmp: Comparison<M>, item: Item<M>, c: M, seg: seq<M>)
    requires item.Repeat? && exists m :: m in item.expected && cmp.meets(m, c)
    requires Fulfils(cmp, item.(called := item.called + multiset{c}), seg)
    ensures Fulfils(cmp, item, [c] + seg)
  {
    assert multiset([c] + seg) == multiset{c} + multiset(seg);
    assert item.called + multiset([c] + seg) == item.called + multiset{c} + multiset(seg);
  }

  lemma SingleSound<M(!new)>(cmp: Comparison<M>, q: Queue<M>, c: M, t: seq<M>)
    requires q != [] && q[0].Single? && cmp.meets(q[0].call, c) && Describes(cmp, q[1..], t)
    ensures Describes(cmp, q, [c] + t)
  {
    assert ([c] + t)[..1] == [c] && ([c] + t)[1..] == t;
    FirstSegment(cmp, q, [c] + t, 1);
  }

  lemma LastCallSound<M(!new)>(cmp: Comparison<M>, q: Queue<M>, c: M, i: nat, t: seq<M>)
    requires q != [] && q[0].Unordered? && FirstMatch(cmp.meets, q[0].left, i, c) && Without(q[0].left, i) == []
    requires Describes(cmp, q[1..], t)
    ensures Describes(cmp, q, [c] + t)
  {
    assert Assigns<M>(cmp.meets, [], multiset{}, multiset{});
    assert t[..0] == [] && t[0..] == t;
    ConsumeUnordered(cmp, q[0].name, q[0].left, i, c, t[..0]);
    PrefixPlus(c, t, 0);
    FirstSegment(cmp, q, [c] + t, 1);
  }

  lemma UnorderedSound<M(!new)>(cmp: Comparison<M>, q: Queue<M>, c: M, i: nat, t: seq<M>)
    requires q != [] && q[0].Unordered? && FirstMatch(cmp.meets, q[0].left, i, c)
    requires Describes(cmp, PutBack(q[0].name, Without(q[0].left, i), q[1..]), t)
    ensures Describes(cmp, q, [c] + t)
  {
    var name, left := q[0].name, q[0].left;
    var fewer := Without(left, i);
    if fewer == [] {
      LastCallSound(cmp, q, c, i, t);
    } else {
      var q' := [Unordered(name, fewer)] + q[1..];
      var k :| 0 <= k <= |t| && Fulfils(cmp, q'[0], t[..k]) && Describes(cmp, q'[1..], t[k..]);
      assert q'[1..] == q[1..];
      ConsumeUnordered(cmp, name, left, i, c, t[..k]);
      PrefixPlus(c, t, k);
      FirstSegment(cmp, q, [c] + t, k + 1);
    }
  }

  lemma RepeatSound<M(!new)>(cmp: Comparison<M>, q: Queue<M>, c: M, t: seq<M>)
    requires q != [] && q[0].Repeat? && exists m :: m in q[0].expected && cmp.meets(m, c)
    requires Describes(cmp, [q[0].(called := q[0].called + multiset{c})] + q[1..], t)
    ensures Describes(cmp, q, [c] + t)
  {
    var q' := [q[0].(called := q[0].called + multiset{c})] + q[1..];
    var k :| 0 <= k <= |t| && Fulfils(cmp, q'[0], t[..k]) && Describes(cmp, q'[1..], t[k..]);
    assert q'[1..] == q[1..];
    ConsumeRepeat(cmp, q[0], c, t[..k]);
    PrefixPlus(c, t, k);
    FirstSegment(cmp, q, [c] + t, k + 1);
  }

  lemma PassedSound<M(!new)>(cmp: Comparison<M>, q: Queue<M>, t: seq<M>)
    requires q != [] && q[0].Repeat? && Assignable(cmp.satisfies, q[0].expected, q[0].called)
    requires Describes(cmp, q[1..], t)
    ensures Describes(cmp, q, t)
  {
    assert t[..0] == [] && t[0..] == t && q[0].called + multiset(t[..0]) == q[0].called;
    FirstSegment(cmp, q, t, 0);
  }

  /** One call undoes into the language: whatever completes the queue after c, c completes before it. */
  lemma {:induction false} ConsumeSound<M(!new)>(cmp: Comparison<M>, q: Queue<M>, c: M, q': Queue<M>, t: seq<M>)
    requires Consumes(cmp, q, c, q') && Describes(cmp, q', t)
    ensures Describes(cmp, q, [c] + t)
    decreases |q|
  {
    match q[0]
    case Single(_) =>
      SingleSound(cmp, q, c, t);
    case Unordered(name, left) =>
      var i :| FirstMatch(cmp.meets, left, i, c) && q' == PutBack(name, Without(left, i), q[1..]);
      UnorderedSound(cmp, q, c, i, t);
    case Repeat(name, expected, called) =>
      if exists m :: m in expected && cmp.meets(m, c) {
        RepeatSound(cmp, q, c, t);
      } else {
        ConsumeSound(cmp, q[1..], c, q', t);
        PassedSound(cmp, q, [c] + t);
      }
  }

  lemma FinishedSound<M(!new)>(cmp: Comparison<M>, q: Queue<M>)
    requires Finished(cmp, q)
    ensures Describes<M>(cmp, q, [])
  {
    if q != [] {
      var none: seq<M> := [];
      assert none[..0] == none && none[0..] == none && q[0].called + multiset(none) == q[0].called;
      FirstSegment(cmp, q, none, 0);
    }
  }

  /**
   * Soundness for every pair of comparisons and every set iteration order: a trace that replays
   * without error and passes _Verify splits into segments that fulfil the recorded items.
   */
  lemma {:induction false} ReplaySound<M(!new)>(cmp: Comparison<M>, q: Queue<M>, trace: seq<M>)
    requires Replays(cmp, q, trace)
    ensures Describes(cmp, q, trace)
    decreases |trace|
  {
    if trace == [] {
      FinishedSound(cmp, q);
    } else {
      var q' :| Consumes(cmp, q, trace[0], q') && Replays(cmp, q', trace[1..]);
      ReplaySound(cmp, q', trace[1..]);
      ConsumeSound(cmp, q, trace[0], q', trace[1..]);
      assert trace == [trace[0]] + trace[1..];
    }
  }

  // ------------------------------------------------------------------ plain equality: replay is a function

  function IndexOf<M(==)>(left: seq<M>, c: M): (i: nat)
    ensures i <= |left| && c !in left[..i] && (i < |left| ==> left[i] == c)
  {
    if left == [] || left[0] == c then 0 else 1 + IndexOf(left[1..], c)
  }

  /** The queue after call c, or None for UnexpectedMethodCallError. */
  function Step<M(==)>(q: Queue<M>, c: M): Option<Queue<M>> {
    if q == [] then None
    else
      match q[0]
      case Single(m) => if m == c then Some(q[1..]) else None
      case Unordered(name, left) =>
        var i := IndexOf(left, c);
        if i < |left| then Some(PutBack(name, Without(left, i), q[1..])) else None
      case Repeat(name, expected, called) =>
        if c in expected then Some([Repeat(name, expected, called + multiset{c})] + q[1..])
        else if expected != multiset{} && expected <= called then Step(q[1..], c)
        else None
  }

  function Replay<M(==)>(q: Queue<M>, trace: seq<M>): Option<Queue<M>>
    decreases |trace|
  {
    if trace == [] then Some(q)
    else
      match Step(q, trace[0])
      case None => None
      case Some(q') => Replay(q', trace[1..])
  }

  predicate Verified<M(==)>(q: Queue<M>) {
    q == [] || (|q| == 1 && q[0].Repeat? && q[0].expected != multiset{} && q[0].expected <= q[0].called)
  }

  predicate Accepted<M(==)>(q: Queue<M>, trace: seq<M>) {
    Replay(q, trace).Some? && Verified(Replay(q, trace).value)
  }

  lemma FirstMatchPlain<M(!new)>(eq: (M, M) -> bool, left: seq<M>, i: nat, c: M)
    requires PlainEquality(eq)
    ensures FirstMatch(eq, left, i, c) <==> i < |left| && i == IndexOf(left, c)
  {
    var j := IndexOf(left, c);
    assert j < |left| ==> eq(left[j], c);
    forall k | 0 <= k < j
      ensures !eq(left[k], c)
    {
      assert left[k] in left[..j];
    }
  }

  /** With plain equality the general replay relation is the function Step, whatever the iteration order. */
  lemma {:induction false} ConsumesPlain<M(!new)>(cmp: Comparison<M>, q: Queue<M>, c: M, q': Queue<M>)
    requires Plain(cmp)
    ensures Consumes(cmp, q, c, q') <==> Step(q, c) == Some(q')
    decreases |q|
  {
    if q == [] {
    } else {
      match q[0]
      case Single(m) =>
      case Unordered(name, left) =>
        forall i: nat
          ensures FirstMatch(cmp.meets, left, i, c) <==> i < |left| && i == IndexOf(left, c)
        {
          FirstMatchPlain(cmp.meets, left, i, c);
        }
        FirstMatchPlain(cmp.meets, left, IndexOf(left, c), c);
      case Repeat(name, expected, called) =>
        AssignablePlain(cmp.satisfies, expected, called);
        if c in expected { assert cmp.meets(c, c); }
        ConsumesPlain(cmp, q[1..], c, q');
    }
  }

  lemma {:induction false} ReplaysPlain<M(!new)>(cmp: Comparison<M>, q: Queue<M>, trace: seq<M>)
    requires Plain(cmp)
    ensures Replays(cmp, q, trace) <==> Accepted(q, trace)
    decreases |trace|
  {
    if trace == [] {
      if |q| == 1 && q[0].Repeat? { AssignablePlain(cmp.satisfies, q[0].expected, q[0].called); }
    } else {
      forall q'
        ensures Consumes(cmp, q, trace[0], q') <==> Step(q, trace[0]) == Some(q')
        ensures Replays(cmp, q', trace[1..]) <==> Accepted(q', trace[1..])
      {
        ConsumesPlain(cmp, q, trace[0], q');
        ReplaysPlain(cmp, q', trace[1..]);
      }
    }
  }

  // ------------------------------------------------------------------ errors are justified

  /** Every repeat group's expectations are such that no call satisfies two different ones. */
  ghost predicate AllUnambiguous<M(!new)>(cmp: Comparison<M>, q: Queue<M>) {
    forall i :: 0 <= i < |q| && q[i].Repeat? ==> Unambiguous(cmp.satisfies, q[i].expected)
  }

  lemma TailUnambiguous<M(!new)>(cmp: Comparison<M>, q: Queue<M>)
    requires q != [] && AllUnambiguous(cmp, q)
    ensures AllUnambiguous(cmp, q[1..])
  {
    assert forall i :: 0 <= i < |q[1..]| ==> q[1..][i] == q[i + 1];
  }

  lemma {:induction false} ConsumeUnambiguous<M(!new)>(cmp: Comparison<M>, q: Queue<M>, c: M, q': Queue<M>)
    requires AllUnambiguous(cmp, q) && Consumes(cmp, q, c, q')
    ensures AllUnambiguous(cmp, q')
    decreases |q|
  {
    TailUnambiguous(cmp, q);
    match q[0]
    case Single(_) =>
    case Unordered(_, _) =>
    case Repeat(_, expected, _) =>
      if !exists m :: m in expected && cmp.meets(m, c) {
        ConsumeUnambiguous(cmp, q[1..], c, q');
      }
  }

  /** When no call satisfies two different expectations of a group, a call is consumed or refused, never either. */
  lemma {:induction false} RefusedIsNotConsumed<M(!new)>(cmp: Comparison<M>, q: Queue<M>, c: M, q': Queue<M>)
    requires AllUnambiguous(cmp, q) && Refuses(cmp, q, c)
    ensures !Consumes(cmp, q, c, q')
    decreases |q|
  {
    if q == [] {
    } else {
      TailUnambiguous(cmp, q);
      match q[0]
      case Single(_) =>
      case Unordered(_, _) =>
      case Repeat(_, expected, called) =>
        if Stuck(cmp.satisfies, expected, called) {
          StuckIsFinal(cmp.satisfies, expected, called);
        } else if expected != multiset{} {
          RefusedIsNotConsumed(cmp, q[1..], c, q');
        }
    }
  }

  lemma UnfinishedIsNotFinished<M(!new)>(cmp: Comparison<M>, q: Queue<M>)
    requires AllUnambiguous(cmp, q) && Unfinished(cmp, q)
    ensures !Finished(cmp, q)
  {
    if |q| == 1 && q[0].Repeat? && Stuck(cmp.satisfies, q[0].expected, q[0].called) {
      StuckIsFinal(cmp.satisfies, q[0].expected, q[0].called);
    }
  }

  lemma {:induction false} ConsumesOnce<M(!new)>(cmp: Comparison<M>, q: Queue<M>, c: M, q': Queue<M>, q'': Queue<M>)
    requires Consumes(cmp, q, c, q') && Consumes(cmp, q, c, q'')
    ensures q' == q''
    decreases |q|
  {
    match q[0]
    case Single(_) =>
    case Unordered(_, _) =>
    case Repeat(_, expected, _) =>
      if !exists m :: m in expected && cmp.meets(m, c) {
        ConsumesOnce(cmp, q[1..], c, q', q'');
      }
  }

  /** Then a trace that fails in one iteration order passes in none. */
  lemma {:induction false} FailureIsFinal<M(!new)>(cmp: Comparison<M>, q: Queue<M>, trace: seq<M>)
    requires AllUnambiguous(cmp, q) && Fails(cmp, q, trace)
    ensures !Replays(cmp, q, trace)
    decreases |trace|
  {
    if trace == [] {
      UnfinishedIsNotFinished(cmp, q);
    } else {
      forall q' | Consumes(cmp, q, trace[0], q')
        ensures !Replays(cmp, q', trace[1..])
      {
        if Refuses(cmp, q, trace[0]) {
          RefusedIsNotConsumed(cmp, q, trace[0], q');
        } else {
          var q'' :| Consumes(cmp, q, trace[0], q'') && Fails(cmp, q'', trace[1..]);
          ConsumesOnce(cmp, q, trace[0], q', q'');
          ConsumeUnambiguous(cmp, q, trace[0], q');
          FailureIsFinal(cmp, q', trace[1..]);
        }
      }
    }
  }

  lemma PlainQueue<M(!new)>(cmp: Comparison<M>, q: Queue<M>)
    requires Plain(cmp)
    ensures AllUnambiguous(cmp, q)
  {
    forall i | 0 <= i < |q| && q[i].Repeat?
      ensures Unambiguous(cmp.satisfies, q[i].expected)
    {
      PlainIsUnambiguous(cmp.satisfies, q[i].expected);
    }
  }
}
