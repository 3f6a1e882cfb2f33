/**
 * How a repeat group decides whether it is satisfied: each call strikes off one expectation
 * that it satisfies, if one is left. A positive answer rests on an assignment; a negative one
 * on a strike-off that nothing can continue. For expectations that no call confuses the two
 * exclude each other, so the answer does not depend on the order.
 */
module MoxStrikeOff {
  import opened MoxLanguage

  // ------------------------------------------------------------------ strike-offs

  /**
   * The pairs are what the calls have struck off, tmp is what is left of the expectations, and
   * no call without a pair satisfies any of those.
   */
  ghost predicate StruckOff<M(!new)>(sat: (M, M) -> bool, expected: multiset<M>, calls: multiset<M>, tmp: multiset<M>,
                                     pairs: seq<(M, M)>)
  {
    && tmp <= expected
    && Assigns(sat, pairs, expected - tmp, calls)
    && forall c, m :: c in calls - Calls(pairs) && m in tmp ==> !sat(m, c)
  }

  /** Some strike-off ends with expectations left. */
  ghost predicate Stuck<M(!new)>(sat: (M, M) -> bool, expected: multiset<M>, calls: multiset<M>) {
    exists tmp, pairs :: tmp != multiset{} && StruckOff(sat, expected, calls, tmp, pairs)
  }

  lemma NothingStruck<M(!new)>(sat: (M, M) -> bool, expected: multiset<M>)
    ensures StruckOff(sat, expected, multiset{}, expected, [])
  {
    assert expected - expected == multiset{};
  }

  lemma MoveBack<M>(all: multiset<M>, tmp: multiset<M>, m: M)
    requires tmp <= all && m in tmp
    ensures all - tmp + multiset{m} == all - (tmp - multiset{m})
  {
  }

  lemma SameUnused<M>(used: multiset<M>, paired: multiset<M>, c: M)
    requires paired <= used
    ensures used + multiset{c} - (paired + multiset{c}) == used - paired
    ensures used + multiset{c} - paired == used - paired + multiset{c}
  {
  }

  /** A call strikes off an expectation that it satisfies. */
  lemma StrikeOne<M(!new)>(sat: (M, M) -> bool, expected: multiset<M>, used: multiset<M>, tmp: multiset<M>,
                           pairs: seq<(M, M)>, m: M, c: M)
    requires StruckOff(sat, expected, used, tmp, pairs) && m in tmp && sat(m, c)
    ensures StruckOff(sat, expected, used + multiset{c}, tmp - multiset{m}, pairs + [(m, c)])
  {
    AssignOne(sat, pairs, m, c, expected - tmp, used);
    MoveBack(expected, tmp, m);
    SameUnused(used, Calls(pairs), c);
  }

  /** A call that satisfies nothing that is left strikes off nothing. */
  lemma StrikeNone<M(!new)>(sat: (M, M) -> bool, expected: multiset<M>, used: multiset<M>, tmp: multiset<M>,
                            pairs: seq<(M, M)>, c: M)
    requires StruckOff(sat, expected, used, tmp, pairs) && !exists m :: m in tmp && sat(m, c)
    ensures StruckOff(sat, expected, used + multiset{c}, tmp, pairs)
  {
    SameUnused(used, Calls(pairs), c);
  }

  lemma AllStruck<M(!new)>(sat: (M, M) -> bool, expected: multiset<M>, used: multiset<M>, pairs: seq<(M, M)>,
                           calls: multiset<M>)
    requires StruckOff(sat, expected, used, multiset{}, pairs) && used <= calls
    ensures Assignable(sat, expected, calls)
  {
    assert expected - multiset{} == expected;
    assert Assigns(sat, pairs, expected, calls);
  }

  // ------------------------------------------------------------------ when the order does not matter

  /** No call satisfies two different ones of the expectations. */
  ghost predicate Unambiguous<M(!new)>(sat: (M, M) -> bool, expected: multiset<M>) {
    forall c, m, m' :: m in expected && m' in expected && sat(m, c) && sat(m', c) ==> m == m'
  }

  /** The calls that the pairs give to the expectation m. */
  ghost function Given<M>(pairs: seq<(M, M)>, m: M): multiset<M> {
    if pairs == [] then multiset{}
    else
      var n := |pairs| - 1;
      Given(pairs[..n], m) + if pairs[n].0 == m then multiset{pairs[n].1} else multiset{}
  }

  lemma {:induction false} GivenSize<M>(pairs: seq<(M, M)>, m: M)
    ensures |Given(pairs, m)| == Expectations(pairs)[m] && Given(pairs, m) <= Calls(pairs)
  {
    if pairs == [] {
    } else {
      GivenSize(pairs[..|pairs| - 1], m);
    }
  }

  lemma {:induction false} GivenMatch<M(!new)>(sat: (M, M) -> bool, pairs: seq<(M, M)>, m: M, c: M)
    requires AllMatch(sat, pairs) && c in Given(pairs, m)
    ensures sat(m, c)
  {
    var n := |pairs| - 1;
    if pairs[n].0 == m && pairs[n].1 == c {
    } else {
      GivenMatch(sat, pairs[..n], m, c);
    }
  }

  lemma {:induction false} PairedIsExpected<M>(pairs: seq<(M, M)>, i: nat)
    requires i < |pairs|
    ensures pairs[i].0 in Expectations(pairs)
  {
    if i == |pairs| - 1 {
    } else {
      PairedIsExpected(pairs[..|pairs| - 1], i);
    }
  }

  /** If the calls c that are paired can only be paired with m, then m has them all. */
  lemma {:induction false} GivenAll<M>(pairs: seq<(M, M)>, m: M, c: M)
    requires forall i :: 0 <= i < |pairs| && pairs[i].1 == c ==> pairs[i].0 == m
    ensures Given(pairs, m)[c] == Calls(pairs)[c]
  {
    if pairs == [] {
    } else {
      GivenAll(pairs[..|pairs| - 1], m, c);
    }
  }

  lemma SmallerSize<M>(a: multiset<M>, b: multiset<M>)
    requires a <= b
    ensures |a| <= |b|
  {
    assert b == a + (b - a);
  }

  lemma AllTaken<M(!new)>(sat: (M, M) -> bool, expected: multiset<M>, calls: multiset<M>, tmp: multiset<M>,
                          pairs: seq<(M, M)>, m: M, c: M)
    requires Unambiguous(sat, expected) && StruckOff(sat, expected, calls, tmp, pairs) && m in tmp && sat(m, c)
    ensures Given(pairs, m)[c] == calls[c]
  {
    assert c !in calls - Calls(pairs);
    forall i | 0 <= i < |pairs| && pairs[i].1 == c
      ensures pairs[i].0 == m
    {
      PairedIsExpected(pairs, i);
      assert sat(pairs[i].0, pairs[i].1);
    }
    GivenAll(pairs, m, c);
  }

  /** For unambiguous expectations a strike-off that is stuck means that there is no assignment. */
  lemma StuckIsFinal<M(!new)>(sat: (M, M) -> bool, expected: multiset<M>, calls: multiset<M>)
    requires Unambiguous(sat, expected) && Stuck(sat, expected, calls)
    ensures !Assignable(sat, expected, calls)
  {
    var tmp, pairs :| tmp != multiset{} && StruckOff(sat, expected, calls, tmp, pairs);
    var m :| m in tmp;
    forall pairs' | Assigns(sat, pairs', expected, calls)
      ensures false
    {
      forall c | c in Given(pairs', m)
        ensures Given(pairs', m)[c] <= Given(pairs, m)[c]
      {
        GivenMatch(sat, pairs', m, c);
        AllTaken(sat, expected, calls, tmp, pairs, m, c);
        GivenSize(pairs', m);
      }
      GivenSize(pairs, m);
      GivenSize(pairs', m);
      assert Given(pairs', m) <= Given(pairs, m);
      SmallerSize(Given(pairs', m), Given(pairs, m));
    }
  }

  lemma PlainIsUnambiguous<M(!new)>(sat: (M, M) -> bool, expected: multiset<M>)
    requires PlainEquality(sat)
    ensures Unambiguous(sat, expected)
  {
  }

  lemma {:induction false} SomePair<M>(pairs: seq<(M, M)>, m: M)
    requires m in Expectations(pairs)
    ensures exists i :: 0 <= i < |pairs| && pairs[i].0 == m && pairs[i].1 in Calls(pairs)
  {
    var n := |pairs| - 1;
    if pairs[n].0 == m {
    } else {
      SomePair(pairs[..n], m);
      var i :| 0 <= i < |pairs[..n]| && pairs[..n][i].0 == m && pairs[..n][i].1 in Calls(pairs[..n]);
      assert pairs[i].0 == m;
    }
  }

  lemma OneAssigned<M(!new)>(sat: (M, M) -> bool, m: M, c: M, calls: multiset<M>)
    requires c in calls && sat(m, c)
    ensures Assignable(sat, multiset{m}, calls)
  {
    var pairs := [] + [(m, c)];
    AssignOne(sat, [], m, c, multiset{}, multiset{});
    assert Assigns(sat, pairs, multiset{m}, calls);
  }

  lemma OneSatisfied<M(!new)>(sat: (M, M) -> bool, pairs: seq<(M, M)>, m: M, calls: multiset<M>)
    requires Assigns(sat, pairs, multiset{m}, calls)
    ensures exists c :: c in calls && sat(m, c)
  {
    SomePair(pairs, m);
  }

  /** A group of one expectation is satisfied exactly if some call satisfies that. */
  lemma OneExpectation<M(!new)>(sat: (M, M) -> bool, m: M, calls: multiset<M>)
    ensures Unambiguous(sat, multiset{m})
    ensures Assignable(sat, multiset{m}, calls) <==> exists c :: c in calls && sat(m, c)
  {
    if Assignable(sat, multiset{m}, calls) {
      var pairs :| Assigns(sat, pairs, multiset{m}, calls);
      OneSatisfied(sat, pairs, m, calls);
    }
    if c :| c in calls && sat(m, c) {
      OneAssigned(sat, m, c, calls);
    }
  }
}
