/**
 * What a recorded queue of expectations means, independently of how mox replays it: the set
 * of call traces that it describes. Expectations are compared with calls in two ways, which
 * are plain equality unless a parameter is a Comparator or brings its own __eq__.
 */
module MoxLanguage {

  /** One entry of the expected-calls queue; called is what a repeat group has seen so far. */
  datatype Item<M(==)> =
    | Single(call: M)
    | Unordered(name: string, left: seq<M>)
    | Repeat(name: string, expected: multiset<M>, called: multiset<M>)

  type Queue<M(==)> = seq<Item<M>>

  ghost predicate PlainEquality<M(!new)>(eq: (M, M) -> bool) {
    forall x, y :: eq(x, y) <==> x == y
  }

  /**
   * What the two comparisons of mox answer for an expectation and a call: meets is
   * `expected == call`, by which a call is looked up; satisfies is `call == expected`, by which
   * a repeat group strikes off its expectations.
   */
  datatype Comparison<!M> = Comparison(meets: (M, M) -> bool, satisfies: (M, M) -> bool)

  ghost predicate Plain<M(!new)>(cmp: Comparison<M>) {
    PlainEquality(cmp.meets) && PlainEquality(cmp.satisfies)
  }

  // ------------------------------------------------------------------ assignments

  ghost function Expectations<M>(pairs: seq<(M, M)>): multiset<M> {
    if pairs == [] then multiset{}
    else Expectations(pairs[..|pairs| - 1]) + multiset{pairs[|pairs| - 1].0}
  }

  ghost function Calls<M>(pairs: seq<(M, M)>): multiset<M> {
    if pairs == [] then multiset{}
    else Calls(pairs[..|pairs| - 1]) + multiset{pairs[|pairs| - 1].1}
  }

  ghost predicate AllMatch<M>(eq: (M, M) -> bool, pairs: seq<(M, M)>) {
    forall i :: 0 <= i < |pairs| ==> eq(pairs[i].0, pairs[i].1)
  }

  /** The pairs assign to every expectation, one-to-one, a matching call among the calls. */
  ghost predicate Assigns<M>(eq: (M, M) -> bool, pairs: seq<(M, M)>, expected: multiset<M>, calls: multiset<M>) {
    AllMatch(eq, pairs) && Expectations(pairs) == expected && Calls(pairs) <= calls
  }

  ghost predicate Assignable<M(!new)>(eq: (M, M) -> bool, expected: multiset<M>, calls: multiset<M>) {
    exists pairs :: Assigns(eq, pairs, expected, calls)
  }

  lemma AssignOne<M>(eq: (M, M) -> bool, pairs: seq<(M, M)>, m: M, c: M, expected: multiset<M>, calls: multiset<M>)
    requires Assigns(eq, pairs, expected, calls) && eq(m, c)
    ensures Assigns(eq, pairs + [(m, c)], expected + multiset{m}, calls + multiset{c})
    ensures Calls(pairs + [(m, c)]) == Calls(pairs) + multiset{c}
  {
    var longer := pairs + [(m, c)];
    assert longer[..|longer| - 1] == pairs;
  }

  lemma {:induction false} PlainPairs<M(!new)>(eq: (M, M) -> bool, pairs: seq<(M, M)>)
    requires PlainEquality(eq) && AllMatch(eq, pairs)
    ensures Expectations(pairs) == Calls(pairs)
  {
    if pairs == [] {
    } else {
      var last := pairs[|pairs| - 1];
      assert eq(last.0, last.1);
      PlainPairs(eq, pairs[..|pairs| - 1]);
    }
  }

  lemma {:induction false} SelfPairs<M(!new)>(eq: (M, M) -> bool, s: multiset<M>) returns (pairs: seq<(M, M)>)
    requires PlainEquality(eq)
    ensures AllMatch(eq, pairs) && Expectations(pairs) == s == Calls(pairs)
    decreases |s|
  {
    if s == multiset{} {
      pairs := [];
    } else {
      var m :| m in s;
      var fewer := SelfPairs(eq, s - multiset{m});
      pairs := fewer + [(m, m)];
      assert eq(m, m);
      AssignOne(eq, fewer, m, m, s - multiset{m}, s - multiset{m});
    }
  }

  /** With plain equality, assigning every expectation its own call is multiset inclusion. */
  lemma AssignablePlain<M(!new)>(eq: (M, M) -> bool, expected: multiset<M>, calls: multiset<M>)
    requires PlainEquality(eq)
    ensures Assignable(eq, expected, calls) <==> expected <= calls
  {
    if Assignable(eq, expected, calls) {
      var pairs :| Assigns(eq, pairs, expected, calls);
      PlainPairs(eq, pairs);
    }
    if expected <= calls {
      var pairs := SelfPairs(eq, expected);
      assert Assigns(eq, pairs, expected, calls);
    }
  }

  // ------------------------------------------------------------------ the language of a queue

  /** seg is a complete set of calls for what is still open in the item. */
  ghost predicate Fulfils<M(!new)>(cmp: Comparison<M>, item: Item<M>, seg: seq<M>) {
    match item
    case Single(m) => |seg| == 1 && cmp.meets(m, seg[0])
    case Unordered(_, left) =>
      exists pairs :: Assigns(cmp.meets, pairs, multiset(left), multiset(seg)) && Calls(pairs) == multiset(seg)
    case Repeat(_, expected, called) =>
      (forall c :: c in seg ==> exists m :: m in expected && cmp.meets(m, c)) &&
      Assignable(cmp.satisfies, expected, called + multiset(seg))
  }

  /** The trace splits into one segment per item, in order, each fulfilling its item. */
  ghost predicate Describes<M(!new)>(cmp: Comparison<M>, q: Queue<M>, trace: seq<M>) {
    if q == [] then trace == []
    else exists k :: 0 <= k <= |trace| && Fulfils(cmp, q[0], trace[..k]) && Describes(cmp, q[1..], trace[k..])
  }

  /** Fulfils, said with multisets: the reading for plain equality. */
  ghost predicate Matches<M>(item: Item<M>, seg: seq<M>) {
    match item
    case Single(m) => seg == [m]
    case Unordered(_, left) => multiset(seg) == multiset(left)
    case Repeat(_, expected, called) =>
      (forall c :: c in seg ==> c in expected) && expected <= called + multiset(seg)
  }

  ghost predicate InLanguage<M>(q: Queue<M>, trace: seq<M>) {
    if q == [] then trace == []
    else exists k :: 0 <= k <= |trace| && Matches(q[0], trace[..k]) && InLanguage(q[1..], trace[k..])
  }

  lemma FulfilsPlain<M(!new)>(cmp: Comparison<M>, item: Item<M>, seg: seq<M>)
    requires Plain(cmp)
    ensures Fulfils(cmp, item, seg) <==> Matches(item, seg)
  {
    match item
    case Single(m) =>
    case Unordered(_, left) =>
      if Fulfils(cmp, item, seg) {
        var pairs :| Assigns(cmp.meets, pairs, multiset(left), multiset(seg)) && Calls(pairs) == multiset(seg);
        PlainPairs(cmp.meets, pairs);
      }
      if Matches(item, seg) {
        var pairs := SelfPairs(cmp.meets, multiset(left));
        assert Assigns(cmp.meets, pairs, multiset(left), multiset(seg));
      }
    case Repeat(_, expected, called) =>
      AssignablePlain(cmp.satisfies, expected, called + multiset(seg));
      assert forall c :: (exists m :: m in expected && cmp.meets(m, c)) <==> c in expected by {
        assert forall c :: c in expected ==> cmp.meets(c, c);
      }
  }

  lemma {:induction false} DescribesPlain<M(!new)>(cmp: Comparison<M>, q: Queue<M>, trace: seq<M>)
    requires Plain(cmp)
    ensures Describes(cmp, q, trace) <==> InLanguage(q, trace)
    decreases |q|
  {
    if q == [] {
    } else {
      forall k | 0 <= k <= |trace|
        ensures Fulfils(cmp, q[0], trace[..k]) <==> Matches(q[0], trace[..k])
        ensures Describes(cmp, q[1..], trace[k..]) <==> InLanguage(q[1..], trace[k..])
      {
        FulfilsPlain(cmp, q[0], trace[..k]);
        DescribesPlain(cmp, q[1..], trace[k..]);
      }
    }
  }
}
