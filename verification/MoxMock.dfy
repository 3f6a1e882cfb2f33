/**
 * The objects of mox.py: a mock with its expected-calls queue, and the two kinds of method
 * groups that live in the queue and are updated in place. A call, recorded or replayed, is a
 * value of type M; the two comparisons of MockMethod.__eq__, one for each order of its operands,
 * are parameters.
 */
module MoxMock {
  import opened MoxLanguage
  import opened MoxReplay
  import opened MoxStrikeOff
  import opened MoxRecording
  import opened Options

  /** An element of the deque. */
  datatype Entry<M(==, !new)> =
    | Method(call: M)
    | InAnyOrderGroup(unordered: UnorderedGroup<M>)
    | ManyTimesGroup(times: MultipleTimesGroup<M>)

  /** What MultipleTimesGroup.MethodCalled answers. */
  datatype Answer<M(==, !new)> =
    | Taken(expected: M)
    | PassedOn(next: Entry<M>)
    | Unexpected

  ghost function Parts<M(!new)>(e: Entry<M>): set<object> {
    match e
    case Method(_) => {}
    case InAnyOrderGroup(u) => {u}
    case ManyTimesGroup(g) => {g}
  }

  ghost function AllParts<M(!new)>(q: seq<Entry<M>>): set<object> {
    if q == [] then {} else Parts(q[0]) + AllParts(q[1..])
  }

  /** No group object occurs twice. */
  ghost predicate Separate<M(!new)>(q: seq<Entry<M>>) {
    q == [] || (Parts(q[0]) !! AllParts(q[1..]) && Separate(q[1..]))
  }

  /** The item that an entry stands for at this moment. */
  ghost function Shown<M(!new)>(e: Entry<M>): Item<M>
    reads Parts(e)
  {
    match e
    case Method(m) => Single(m)
    case InAnyOrderGroup(u) => Unordered(u.name, u.methods)
    case ManyTimesGroup(g) => Repeat(g.name, g.methods, g.called)
  }

  ghost function AllShown<M(!new)>(q: seq<Entry<M>>): (items: Queue<M>)
    reads AllParts(q)
    ensures |items| == |q|
  {
    if q == [] then [] else [Shown(q[0])] + AllShown(q[1..])
  }

  lemma {:induction false} PartsAppend<M(!new)>(q: seq<Entry<M>>, e: Entry<M>)
    ensures AllParts(q + [e]) == AllParts(q) + Parts(e)
    ensures Separate(q + [e]) <==> Separate(q) && Parts(e) !! AllParts(q)
  {
    if q == [] {
      assert (q + [e])[1..] == [];
    } else {
      assert (q + [e])[1..] == q[1..] + [e];
      PartsAppend(q[1..], e);
    }
  }

  lemma {:induction false} ShownAppend<M(!new)>(q: seq<Entry<M>>, e: Entry<M>)
    ensures AllShown(q + [e]) == AllShown(q) + [Shown(e)]
  {
    if q == [] {
      assert (q + [e])[1..] == [];
    } else {
      assert (q + [e])[1..] == q[1..] + [e];
      ShownAppend(q[1..], e);
    }
  }

  lemma Pushed<M(!new)>(e: Entry<M>, q: seq<Entry<M>>)
    ensures AllShown([e] + q) == [Shown(e)] + AllShown(q) && AllParts([e] + q) == Parts(e) + AllParts(q)
    ensures Separate([e] + q) <==> Parts(e) !! AllParts(q) && Separate(q)
  {
    assert ([e] + q)[1..] == q;
  }

  lemma Front<T>(q: seq<T>)
    requires q != []
    ensures q[..|q| - 1] + [q[|q| - 1]] == q
  {
  }

  /** Taking the last entry off a queue of separate groups. */
  lemma Unappend<M(!new)>(q: seq<Entry<M>>)
    requires q != []
    ensures var n := |q| - 1;
      AllShown(q) == AllShown(q[..n]) + [Shown(q[n])] && AllParts(q) == AllParts(q[..n]) + Parts(q[n]) &&
      (Separate(q) ==> Separate(q[..n]) && Parts(q[n]) !! AllParts(q[..n]))
  {
    var front, last := q[..|q| - 1], q[|q| - 1];
    Front(q);
    PartsAppend(front, last);
    ShownAppend(front, last);
  }

  lemma TailShown<M(!new)>(q: seq<Entry<M>>)
    requires q != []
    ensures AllShown(q)[|q| - 1] == Shown(q[|q| - 1]) && Parts(q[|q| - 1]) <= AllParts(q)
  {
    Unappend(q);
  }

  /** Whatever may come of the call c at the queue q may come of it at the queue origin. */
  ghost predicate Continues<M(!new)>(cmp: Comparison<M>, q: Queue<M>, c: M, origin: Queue<M>) {
    (forall q' :: Consumes(cmp, q, c, q') ==> Consumes(cmp, origin, c, q')) &&
    (forall m :: Answers(cmp, q, c, m) ==> Answers(cmp, origin, c, m)) &&
    (Refuses(cmp, q, c) ==> Refuses(cmp, origin, c))
  }

  /** The look-up of c in origin ends with the expectation that it meets and the queue q', or with an error. */
  ghost predicate Ends<M(!new)>(cmp: Comparison<M>, origin: Queue<M>, c: M, expected: Option<M>, q': Queue<M>) {
    match expected
    case Some(m) => Answers(cmp, origin, c, m) && Consumes(cmp, origin, c, q')
    case None => Refuses(cmp, origin, c)
  }

  /** What the end of a look-up says where no call satisfies two expectations of a group, and for plain equality. */
  lemma EndIsExact<M(!new)>(cmp: Comparison<M>, origin: Queue<M>, c: M, expected: Option<M>, q': Queue<M>)
    requires Ends(cmp, origin, c, expected, q')
    ensures AllUnambiguous(cmp, origin) ==> (expected.None? <==> forall q'' :: !Consumes(cmp, origin, c, q''))
    ensures Plain(cmp) ==> Step(origin, c) == if expected.Some? then Some(q') else None
  {
    if expected.Some? {
      assert Consumes(cmp, origin, c, q');
    } else if AllUnambiguous(cmp, origin) {
      forall q''
        ensures !Consumes(cmp, origin, c, q'')
      {
        RefusedIsNotConsumed(cmp, origin, c, q'');
      }
    }
    if Plain(cmp) {
      PlainQueue(cmp, origin);
      if expected.None? {
        if Step(origin, c).Some? {
          ConsumesPlain(cmp, origin, c, Step(origin, c).value);
          RefusedIsNotConsumed(cmp, origin, c, Step(origin, c).value);
        }
      } else {
        ConsumesPlain(cmp, origin, c, q');
      }
    }
  }

  lemma SingleCalled<M(!new)>(cmp: Comparison<M>, m: M, rest: Queue<M>, c: M, origin: Queue<M>)
    requires Continues(cmp, [Single(m)] + rest, c, origin)
    ensures Ends(cmp, origin, c, if cmp.meets(m, c) then Some(m) else None, rest)
  {
    var q := [Single(m)] + rest;
    assert q[1..] == rest;
    assert if cmp.meets(m, c) then Consumes(cmp, q, c, rest) && Answers(cmp, q, c, m) else Refuses(cmp, q, c);
  }

  lemma UnorderedCalled<M(!new)>(cmp: Comparison<M>, name: string, left: seq<M>, i: nat, rest: Queue<M>, c: M,
                                 origin: Queue<M>)
    requires Continues(cmp, [Unordered(name, left)] + rest, c, origin) && FirstMatch(cmp.meets, left, i, c)
    ensures Ends(cmp, origin, c, Some(left[i]), PutBack(name, Without(left, i), rest))
  {
    var q := [Unordered(name, left)] + rest;
    assert q[1..] == rest;
    assert Consumes(cmp, q, c, PutBack(name, Without(left, i), rest)) && Answers(cmp, q, c, left[i]);
  }

  lemma UnorderedRefused<M(!new)>(cmp: Comparison<M>, name: string, left: seq<M>, rest: Queue<M>, c: M,
                                  origin: Queue<M>)
    requires Continues(cmp, [Unordered(name, left)] + rest, c, origin) && !exists m :: m in left && cmp.meets(m, c)
    ensures Ends(cmp, origin, c, None, [])
  {
    assert Refuses(cmp, [Unordered(name, left)] + rest, c);
  }

  lemma RepeatCalled<M(!new)>(cmp: Comparison<M>, item: Item<M>, rest: Queue<M>, c: M, m: M, origin: Queue<M>)
    requires item.Repeat? && Continues(cmp, [item] + rest, c, origin) && m in item.expected && cmp.meets(m, c)
    ensures Ends(cmp, origin, c, Some(m), [item.(called := item.called + multiset{c})] + rest)
  {
    var q := [item] + rest;
    assert q[1..] == rest;
    assert Consumes(cmp, q, c, [item.(called := item.called + multiset{c})] + rest) && Answers(cmp, q, c, m);
  }

  lemma RepeatPassed<M(!new)>(cmp: Comparison<M>, item: Item<M>, rest: Queue<M>, c: M, origin: Queue<M>)
    requires item.Repeat? && Continues(cmp, [item] + rest, c, origin)
    requires !exists m :: m in item.expected && cmp.meets(m, c)
    requires item.expected != multiset{} && Assignable(cmp.satisfies, item.expected, item.called)
    ensures Continues(cmp, rest, c, origin)
  {
    assert ([item] + rest)[1..] == rest;
  }

  lemma RepeatRefused<M(!new)>(cmp: Comparison<M>, item: Item<M>, rest: Queue<M>, c: M, origin: Queue<M>)
    requires item.Repeat? && Continues(cmp, [item] + rest, c, origin)
    requires !exists m :: m in item.expected && cmp.meets(m, c)
    requires Unsatisfied(cmp.satisfies, item.expected, item.called) ||
             (rest == [] && item.expected != multiset{} && Assignable(cmp.satisfies, item.expected, item.called))
    ensures Ends(cmp, origin, c, None, [])
  {
    assert ([item] + rest)[1..] == rest;
    assert Refuses(cmp, [item] + rest, c);
  }

  class UnorderedGroup<M(==, !new)> {
    const name: string
    var methods: seq<M>

    constructor (name: string)
      ensures this.name == name && methods == []
    {
      this.name := name;
      methods := [];
    }

    method AddMethod(m: M)
      modifies this
      ensures methods == old(methods) + [m]
    {
      methods := methods + [m];
    }

    method IsSatisfied() returns (r: bool)
      ensures r <==> methods == []
    {
      r := |methods| == 0;
    }

    /**
     * The first expectation that the call matches is taken out; the group goes back to the head
     * unless it is exhausted.
     */
    method MethodCalled(eq: (M, M) -> bool, c: M, mock: MockAnything<M>) returns (expected: Option<M>)
      modifies this, mock`queue
      ensures expected.Some? <==> exists m :: m in old(methods) && eq(m, c)
      ensures expected.Some? ==> exists i: nat ::
        FirstMatch(eq, old(methods), i, c) && expected.value == old(methods)[i] && methods == Without(old(methods), i)
      ensures expected.Some? ==>
        mock.queue == if methods == [] then old(mock.queue) else [InAnyOrderGroup(this)] + old(mock.queue)
      ensures expected.None? ==> methods == old(methods) && mock.queue == old(mock.queue)
    {
      var i := 0;
      while i < |methods|
        invariant 0 <= i <= |methods| && methods == old(methods) && mock.queue == old(mock.queue)
        invariant forall j :: 0 <= j < i ==> !eq(methods[j], c)
      {
        if eq(methods[i], c) {
          expected := Some(methods[i]);
          assert FirstMatch(eq, old(methods), i, c);
          methods := Without(methods, i);
          var satisfied := IsSatisfied();
          if !satisfied {
            mock.queue := [InAnyOrderGroup(this)] + mock.queue;
          }
          return;
        }
        i := i + 1;
      }
      expected := None;
    }
  }

  lemma MoveOne<M>(all: multiset<M>, used: multiset<M>, rest: multiset<M>, c: M)
    requires all == used + rest && c in rest
    ensures all == used + multiset{c} + (rest - multiset{c}) && used + multiset{c} <= all
  {
  }

  /** Where no call satisfies two different expectations, either ground of an answer excludes the other. */
  lemma AnswerIsExact<M(!new)>(sat: (M, M) -> bool, methods: multiset<M>, called: multiset<M>)
    ensures Unambiguous(sat, methods) && Stuck(sat, methods, called) ==> !Assignable(sat, methods, called)
    ensures PlainEquality(sat) ==> Unambiguous(sat, methods)
    ensures PlainEquality(sat) ==> (Assignable(sat, methods, called) <==> methods <= called)
  {
    if Unambiguous(sat, methods) && Stuck(sat, methods, called) {
      StuckIsFinal(sat, methods, called);
    }
    if PlainEquality(sat) {
      AssignablePlain(sat, methods, called);
    }
  }

  class MultipleTimesGroup<M(==, !new)> {
    const name: string
    var methods: multiset<M>  // sets of MockMethod objects: equal calls are distinct elements
    var called: multiset<M>

    constructor (name: string)
      ensures this.name == name && methods == multiset{} && called == multiset{}
    {
      this.name := name;
      methods, called := multiset{}, multiset{};
    }

    method AddMethod(m: M)
      modifies `methods
      ensures methods == old(methods) + multiset{m}
    {
      methods := methods + multiset{m};
    }

    /**
     * Strikes expectations off against calls, in whatever order the two sets are iterated. A
     * positive answer rests on an assignment, a negative one on a strike-off that is stuck. Here
     * the call is the left operand: sat(m, c) is `c == m`.
     */
    method IsSatisfied(sat: (M, M) -> bool) returns (r: bool)
      ensures r ==> methods != multiset{} && Assignable(sat, methods, called)
      ensures !r ==> Unsatisfied(sat, methods, called)
      ensures Unambiguous(sat, methods) ==> (r <==> methods != multiset{} && Assignable(sat, methods, called))
      ensures PlainEquality(sat) ==> (r <==> methods != multiset{} && methods <= called)
    {
      AnswerIsExact(sat, methods, called);
      var tmp, rest := methods, called;
      ghost var used: multiset<M>, pairs: seq<(M, M)> := multiset{}, [];
      NothingStruck(sat, methods);
      while rest != multiset{}
        invariant StruckOff(sat, methods, used, tmp, pairs) && called == used + rest
        invariant methods != multiset{} ==> tmp != multiset{}
        decreases |rest|
      {
        var c :| c in rest;
        MoveOne(called, used, rest, c);
        if exists m :: m in tmp && sat(m, c) {
          var m :| m in tmp && sat(m, c);
          StrikeOne(sat, methods, used, tmp, pairs, m, c);
          tmp, pairs := tmp - multiset{m}, pairs + [(m, c)];
          if tmp == multiset{} {
            AllStruck(sat, methods, used + multiset{c}, pairs, called);
            return true;
          }
        } else {
          StrikeNone(sat, methods, used, tmp, pairs, c);
        }
        rest, used := rest - multiset{c}, used + multiset{c};
      }
      assert called == used by { assert rest == multiset{}; }
      return false;
    }

    /** A call that the group knows stays in the group; another one is passed on once the group is satisfied. */
    method MethodCalled(cmp: Comparison<M>, c: M, mock: MockAnything<M>) returns (a: Answer<M>)
      modifies `called, mock`queue
      ensures a.Taken? <==> exists m :: m in methods && cmp.meets(m, c)
      ensures a.Taken? ==> a.expected in methods && cmp.meets(a.expected, c) && called == old(called) + multiset{c}
      ensures a.Taken? ==> mock.queue == [ManyTimesGroup(this)] + old(mock.queue)
      ensures !a.Taken? ==> called == old(called)
      ensures a.PassedOn? ==> methods != multiset{} && Assignable(cmp.satisfies, methods, called)
      ensures a.PassedOn? ==>
        old(mock.queue) != [] && a.next == old(mock.queue)[0] && mock.queue == old(mock.queue)[1..]
      ensures a.Unexpected? ==> mock.queue == old(mock.queue)
      ensures a.Unexpected? ==>
        Unsatisfied(cmp.satisfies, methods, called) ||
        (old(mock.queue) == [] && methods != multiset{} && Assignable(cmp.satisfies, methods, called))
    {
      if exists m :: m in methods && cmp.meets(m, c) {
        var m :| m in methods && cmp.meets(m, c);
        called := called + multiset{c};
        mock.queue := [ManyTimesGroup(this)] + mock.queue;
        return Taken(m);
      }
      var satisfied := IsSatisfied(cmp.satisfies);
      if satisfied {
        var next := mock.PopNextMethod();
        return if next.Some? then PassedOn(next.value) else Unexpected;
      }
      return Unexpected;
    }
  }

  /** Whatever may come of replaying rest from q may come of replaying trace from origin. */
  ghost predicate Leads<M(!new)>(cmp: Comparison<M>, q: Queue<M>, rest: seq<M>, origin: Queue<M>, trace: seq<M>) {
    (Replays(cmp, q, rest) ==> Replays(cmp, origin, trace)) && (Fails(cmp, q, rest) ==> Fails(cmp, origin, trace))
  }

  lemma LeadsOn<M(!new)>(cmp: Comparison<M>, q: Queue<M>, q': Queue<M>, rest: seq<M>, origin: Queue<M>, trace: seq<M>,
                         expected: Option<M>)
    requires rest != [] && Leads(cmp, q, rest, origin, trace) && Ends(cmp, q, rest[0], expected, q')
    ensures if expected.Some? then Leads(cmp, q', rest[1..], origin, trace) else Fails(cmp, origin, trace)
  {
  }

  lemma LeadsHome<M(!new)>(cmp: Comparison<M>, q: Queue<M>, rest: seq<M>, origin: Queue<M>, trace: seq<M>, ok: bool)
    requires rest == [] && Leads(cmp, q, rest, origin, trace)
    requires if ok then Finished(cmp, q) else Unfinished(cmp, q)
    ensures if ok then Replays(cmp, origin, trace) else Fails(cmp, origin, trace)
  {
  }

  /** What an outcome says of the trace: of the language, for unambiguous groups, and for plain equality. */
  lemma Outcome<M(!new)>(cmp: Comparison<M>, origin: Queue<M>, trace: seq<M>, ok: bool)
    requires if ok then Replays(cmp, origin, trace) else Fails(cmp, origin, trace)
    ensures ok ==> Describes(cmp, origin, trace)
    ensures AllUnambiguous(cmp, origin) ==> (ok <==> Replays(cmp, origin, trace))
    ensures Plain(cmp) ==> (ok <==> Accepted(origin, trace))
  {
    if ok { ReplaySound(cmp, origin, trace); }
    if Plain(cmp) {
      PlainQueue(cmp, origin);
      ReplaysPlain(cmp, origin, trace);
    }
    if AllUnambiguous(cmp, origin) && !ok { FailureIsFinal(cmp, origin, trace); }
  }

  class MockAnything<M(==, !new)> {
    var queue: seq<Entry<M>>
    var replayMode: bool

    constructor ()
      ensures queue == [] && !replayMode && Valid() && View() == []
    {
      queue, replayMode := [], false;
    }

    ghost predicate Valid()
      reads this
    {
      this !in AllParts(queue) && Separate(queue)
    }

    ghost function View(): Queue<M>
      reads this, AllParts(queue)
    {
      AllShown(queue)
    }

    /** e has been taken off the head and nothing else. */
    ghost predicate Popped(e: Entry<M>)
      reads this
    {
      Valid() && this !in Parts(e) && Parts(e) !! AllParts(queue)
    }

    method PopNextMethod() returns (e: Option<Entry<M>>)
      modifies `queue
      ensures old(queue) == [] ==> e == None && queue == []
      ensures old(queue) != [] ==> e == Some(old(queue)[0]) && queue == old(queue)[1..]
      ensures old(queue) != [] && old(Valid()) ==> Popped(e.value) && old(View()) == [Shown(e.value)] + View()
      ensures old(queue) != [] ==> old(AllParts(queue)) == Parts(e.value) + AllParts(queue)
    {
      if queue == [] {
        return None;
      }
      ghost var tail, shown := queue[1..], AllShown(queue[1..]);
      e := Some(queue[0]);
      queue := queue[1..];
      assert old(Valid()) ==> AllShown(tail) == shown;
    }

    // ---------------------------------------------------------------- recording

    /** deque.append */
    method Append(e: Entry<M>)
      requires Valid() && this !in Parts(e) && Parts(e) !! AllParts(queue)
      modifies `queue
      ensures Valid() && queue == old(queue) + [e] && AllParts(queue) == old(AllParts(queue)) + Parts(e)
      ensures View() == old(View()) + [old(Shown(e))]
    {
      PartsAppend(queue, e);
      ShownAppend(queue, e);
      queue := queue + [e];
    }

    /** MockMethod.__call__ in record mode. */
    method RecordCall(m: M)
      requires Valid() && !replayMode
      modifies `queue
      ensures Valid() && View() == Add(old(View()), Op(m, InOrder)) && queue == old(queue) + [Method(m)]
      ensures AllParts(queue) == old(AllParts(queue))
    {
      Append(Method(m));
    }

    /** The call is taken off the tail again; what is now at the tail may be its group. */
    method GetPossibleGroup(m: M) returns (group: Option<Entry<M>>)
      requires Valid() && queue != [] && queue[|queue| - 1] == Method(m)
      modifies `queue
      ensures Valid() && queue == old(queue)[..|old(queue)| - 1] && AllParts(queue) == old(AllParts(queue))
      ensures old(View()) == View() + [Single(m)]
      ensures group == if queue == [] then None else Some(queue[|queue| - 1])
    {
      Unappend(queue);
      ghost var front := queue[..|queue| - 1];
      ghost var shown := AllShown(front);
      queue := queue[..|queue| - 1];
      assert queue == front && AllShown(front) == shown;
      group := if queue == [] then None else Some(queue[|queue| - 1]);
    }

    /** The group at the tail takes the call. */
    method JoinUnordered(g: UnorderedGroup<M>, m: M)
      requires Valid() && queue != [] && queue[|queue| - 1] == InAnyOrderGroup(g)
      modifies g
      ensures Valid() && AllParts(queue) == old(AllParts(queue))
      ensures var n := |queue| - 1;
        var last := old(Shown(queue[n]));
        last == old(View())[n] && View() == old(View())[..n] + [last.(left := last.left + [m])]
    {
      Unappend(queue);
      ghost var front, shown := queue[..|queue| - 1], AllShown(queue[..|queue| - 1]);
      assert allocated(AllParts(front));
      g.AddMethod(m);
      assert AllShown(front) == shown && queue == front + [InAnyOrderGroup(g)];
      ShownAppend(front, InAnyOrderGroup(g));
    }

    /** A new group with this call goes to the tail. */
    method StartUnordered(m: M, groupName: string)
      requires Valid()
      modifies `queue
      ensures Valid() && forall o :: o in AllParts(queue) ==> o in old(AllParts(queue)) || fresh(o)
      ensures View() == old(View()) + [Unordered(groupName, [m])]
    {
      assert allocated(AllParts(queue));
      var newGroup := new UnorderedGroup(groupName);
      newGroup.AddMethod(m);
      assert newGroup !in AllParts(queue) && Shown(InAnyOrderGroup(newGroup)) == Unordered(groupName, [m]);
      Append(InAnyOrderGroup(newGroup));
    }

    /** The call joins the group at the tail if that has the right class and name, else starts a new one. */
    method PlaceUnordered(group: Option<Entry<M>>, m: M, groupName: string)
      requires Valid() && group == if queue == [] then None else Some(queue[|queue| - 1])
      modifies `queue, AllParts(queue)
      ensures Valid() && forall o :: o in AllParts(queue) ==> o in old(AllParts(queue)) || fresh(o)
      ensures View() == Add(old(View()), Op(m, AnyOrder(groupName)))
    {
      if group.Some? { TailShown(queue); }
      if group.Some? && group.value.InAnyOrderGroup? && group.value.unordered.name == groupName {
        JoinUnordered(group.value.unordered, m);
      } else {
        ghost var before := View();
        assert before != [] ==> ModeOf(before[|before| - 1]) != AnyOrder(groupName);
        StartUnordered(m, groupName);
      }
    }

    /** MockMethod.InAnyOrder on the call m just recorded. */
    method InAnyOrder(m: M, groupName: string)
      requires Valid() && !replayMode && queue != [] && queue[|queue| - 1] == Method(m)
      modifies `queue, AllParts(queue)
      ensures Valid() && forall o :: o in AllParts(queue) ==> o in old(AllParts(queue)) || fresh(o)
      ensures View() == Add(old(View())[..|old(queue)| - 1], Op(m, AnyOrder(groupName)))
    {
      var group := GetPossibleGroup(m);
      PlaceUnordered(group, m, groupName);
    }

    /** The group at the tail takes the call. */
    method JoinRepeat(g: MultipleTimesGroup<M>, m: M)
      requires Valid() && queue != [] && queue[|queue| - 1] == ManyTimesGroup(g)
      modifies g
      ensures Valid() && AllParts(queue) == old(AllParts(queue))
      ensures var n := |queue| - 1;
        var last := old(Shown(queue[n]));
        last == old(View())[n] && View() == old(View())[..n] + [last.(expected := last.expected + multiset{m})]
    {
      Unappend(queue);
      ghost var front, shown := queue[..|queue| - 1], AllShown(queue[..|queue| - 1]);
      assert allocated(AllParts(front));
      g.AddMethod(m);
      assert AllShown(front) == shown && queue == front + [ManyTimesGroup(g)];
      ShownAppend(front, ManyTimesGroup(g));
    }

    /** A new group with this call goes to the tail. */
    method StartRepeat(m: M, groupName: string)
      requires Valid()
      modifies `queue
      ensures Valid() && forall o :: o in AllParts(queue) ==> o in old(AllParts(queue)) || fresh(o)
      ensures View() == old(View()) + [Repeat(groupName, multiset{m}, multiset{})]
    {
      assert allocated(AllParts(queue));
      var newGroup := new MultipleTimesGroup(groupName);
      newGroup.AddMethod(m);
      assert newGroup !in AllParts(queue);
      assert Shown(ManyTimesGroup(newGroup)) == Repeat(groupName, multiset{m}, multiset{});
      Append(ManyTimesGroup(newGroup));
    }

    /** The call joins the group at the tail if that has the right class and name, else starts a new one. */
    method PlaceRepeat(group: Option<Entry<M>>, m: M, groupName: string)
      requires Valid() && group == if queue == [] then None else Some(queue[|queue| - 1])
      modifies `queue, AllParts(queue)
      ensures Valid() && forall o :: o in AllParts(queue) ==> o in old(AllParts(queue)) || fresh(o)
      ensures View() == Add(old(View()), Op(m, Mode.MultipleTimes(groupName)))
    {
      if group.Some? { TailShown(queue); }
      if group.Some? && group.value.ManyTimesGroup? && group.value.times.name == groupName {
        JoinRepeat(group.value.times, m);
      } else {
        ghost var before := View();
        assert before != [] ==> ModeOf(before[|before| - 1]) != Mode.MultipleTimes(groupName);
        StartRepeat(m, groupName);
      }
    }

    /** MockMethod.MultipleTimes on the call m just recorded. */
    method MultipleTimes(m: M, groupName: string)
      requires Valid() && !replayMode && queue != [] && queue[|queue| - 1] == Method(m)
      modifies `queue, AllParts(queue)
      ensures Valid() && forall o :: o in AllParts(queue) ==> o in old(AllParts(queue)) || fresh(o)
      ensures View() == Add(old(View())[..|old(queue)| - 1], Op(m, Mode.MultipleTimes(groupName)))
    {
      var group := GetPossibleGroup(m);
      PlaceRepeat(group, m, groupName);
    }

    // ---------------------------------------------------------------- replay and verification

    /** The popped unordered group is asked about the call. */
    method AskUnordered(cmp: Comparison<M>, c: M, u: UnorderedGroup<M>, ghost origin: Queue<M>)
      returns (expected: Option<M>)
      requires Popped(InAnyOrderGroup(u)) && Continues(cmp, [Shown(InAnyOrderGroup(u))] + View(), c, origin)
      modifies u, `queue
      ensures Valid() && AllParts(queue) <= {u} + old(AllParts(queue))
      ensures Ends(cmp, origin, c, expected, View())
    {
      ghost var behind, rest, left := queue, View(), u.methods;
      assert allocated(AllParts(behind));
      expected := u.MethodCalled(cmp.meets, c, this);
      assert AllShown(behind) == rest;
      Pushed(InAnyOrderGroup(u), behind);
      if expected.Some? {
        ghost var i: nat :|
          FirstMatch(cmp.meets, left, i, c) && expected.value == left[i] && u.methods == Without(left, i);
        UnorderedCalled(cmp, u.name, left, i, rest, c, origin);
      } else {
        UnorderedRefused(cmp, u.name, left, rest, c, origin);
      }
    }

    /** The popped repeat group is asked about the call. */
    method AskTimes(cmp: Comparison<M>, c: M, g: MultipleTimesGroup<M>, ghost origin: Queue<M>) returns (a: Answer<M>)
      requires Popped(ManyTimesGroup(g)) && Continues(cmp, [Shown(ManyTimesGroup(g))] + View(), c, origin)
      modifies g, `queue
      ensures Valid() && AllParts(queue) <= {g} + old(AllParts(queue))
      ensures a.Taken? ==> Ends(cmp, origin, c, Some(a.expected), View())
      ensures a.Unexpected? ==> Ends(cmp, origin, c, None, View())
      ensures a.PassedOn? ==> Popped(a.next) && Parts(a.next) + AllParts(queue) <= old(AllParts(queue)) &&
                              |queue| < |old(queue)| && Continues(cmp, [Shown(a.next)] + View(), c, origin)
    {
      ghost var behind, rest, item := queue, View(), Shown(ManyTimesGroup(g));
      assert allocated(AllParts(behind));
      a := g.MethodCalled(cmp, c, this);
      assert AllShown(behind) == rest;
      Pushed(ManyTimesGroup(g), behind);
      match a {
        case Taken(m) =>
          RepeatCalled(cmp, item, rest, c, m, origin);
        case Unexpected =>
          RepeatRefused(cmp, item, rest, c, origin);
        case PassedOn(next) =>
          RepeatPassed(cmp, item, rest, c, origin);
          assert rest == [Shown(next)] + View();
      }
    }

    /** MockMethod._VerifyMethodCall: the expectation that the call meets, or None for UnexpectedMethodCallError. */
    method VerifyMethodCall(cmp: Comparison<M>, c: M) returns (expected: Option<M>)
      requires Valid()
      modifies `queue, AllParts(queue)
      ensures Valid() && AllParts(queue) <= old(AllParts(queue))
      ensures Ends(cmp, old(View()), c, expected, View())
      ensures AllUnambiguous(cmp, old(View())) ==>
        (expected.None? <==> forall q' :: !Consumes(cmp, old(View()), c, q'))
      ensures Plain(cmp) ==> Step(old(View()), c) == if expected.Some? then Some(View()) else None
    {
      ghost var origin := View();
      var head := PopNextMethod();
      if head.None? {
        return None;
      }
      var e := head.value;
      while true
        invariant Popped(e) && Parts(e) + AllParts(queue) <= old(AllParts(queue))
        invariant Continues(cmp, [Shown(e)] + View(), c, origin)
        decreases |queue|
      {
        match e {
          case Method(m) =>
            SingleCalled(cmp, m, View(), c, origin);
            expected := if cmp.meets(m, c) then Some(m) else None;
            break;
          case InAnyOrderGroup(u) =>
            expected := AskUnordered(cmp, c, u, origin);
            break;
          case ManyTimesGroup(g) =>
            var a := AskTimes(cmp, c, g, origin);
            if a.PassedOn? {
              e := a.next;
            } else {
              expected := if a.Taken? then Some(a.expected) else None;
              break;
            }
        }
      }
      EndIsExact(cmp, origin, c, expected, View());
    }

    /** _Verify: nothing is expected any more, except that a last repeat group may stay if it is satisfied. */
    method Verify(cmp: Comparison<M>) returns (ok: bool)
      requires Valid()
      ensures if ok then Finished(cmp, View()) else Unfinished(cmp, View())
      ensures AllUnambiguous(cmp, View()) ==> (ok <==> Finished(cmp, View()))
      ensures Plain(cmp) ==> (ok <==> Verified(View()))
    {
      if queue == [] {
        return true;
      }
      if |queue| == 1 && queue[0].ManyTimesGroup? {
        ok := queue[0].times.IsSatisfied(cmp.satisfies);
      } else {
        ok := false;
      }
    }

    // ---------------------------------------------------------------- a whole test

    /** One recorded call with what is chained onto it. */
    method RecordOp(op: Op<M>)
      requires Valid() && !replayMode
      modifies `queue, AllParts(queue)
      ensures Valid() && forall o :: o in AllParts(queue) ==> o in old(AllParts(queue)) || fresh(o)
      ensures View() == Add(old(View()), op)
    {
      ghost var before := View();
      RecordCall(op.call);
      assert op == Op(op.call, op.mode);
      assert Add(before, Op(op.call, InOrder)) == before + [Single(op.call)];
      assert View() == Add(before, Op(op.call, InOrder));
      assert View()[..|View()| - 1] == before;
      match op.mode {
        case InOrder =>
          assert View() == Add(before, op);
        case AnyOrder(name) => InAnyOrder(op.call, name);
        case MultipleTimes(name) => MultipleTimes(op.call, name);
      }
    }

    /** The record phase of a test. */
    method RecordAll(ops: seq<Op<M>>)
      requires Valid() && !replayMode && queue == []
      modifies `queue, AllParts(queue)
      ensures Valid() && View() == Record(ops)
    {
      var i := 0;
      while i < |ops|
        invariant 0 <= i <= |ops| && Valid() && View() == Record(ops[..i])
        invariant forall o :: o in AllParts(queue) ==> fresh(o)
      {
        RecordOp(ops[i]);
        i := i + 1;
        assert ops[..i][..i - 1] == ops[..i - 1];
      }
      assert ops[..i] == ops;
    }

    /** MockMethod.__call__ in replay mode: false when it raises UnexpectedMethodCallError. */
    method ReplayCall(cmp: Comparison<M>, c: M, ghost rest: seq<M>, ghost origin: Queue<M>, ghost trace: seq<M>)
      returns (ok: bool)
      requires Valid() && rest != [] && c == rest[0] && Leads(cmp, View(), rest, origin, trace)
      modifies `queue, AllParts(queue)
      ensures Valid() && AllParts(queue) <= old(AllParts(queue))
      ensures if ok then Leads(cmp, View(), rest[1..], origin, trace) else Fails(cmp, origin, trace)
    {
      ghost var before := View();
      var expected := VerifyMethodCall(cmp, c);
      LeadsOn(cmp, before, View(), rest, origin, trace, expected);
      ok := expected.Some?;
    }

    /** _Replay, the calls of the code under test, and _Verify; false if either raises an error. */
    method ReplayAndVerify(cmp: Comparison<M>, trace: seq<M>) returns (ok: bool)
      requires Valid()
      modifies this, AllParts(queue)
      ensures if ok then Replays(cmp, old(View()), trace) else Fails(cmp, old(View()), trace)
      ensures ok ==> Describes(cmp, old(View()), trace)
      ensures AllUnambiguous(cmp, old(View())) ==> (ok <==> Replays(cmp, old(View()), trace))
      ensures Plain(cmp) ==> (ok <==> Accepted(old(View()), trace))
    {
      ghost var origin, rest := View(), trace;
      replayMode := true;
      var i := 0;
      while i < |trace|
        invariant 0 <= i <= |trace| && rest == trace[i..] && Valid() && AllParts(queue) <= old(AllParts(queue))
        invariant Leads(cmp, View(), rest, origin, trace)
      {
        ok := ReplayCall(cmp, trace[i], rest, origin, trace);
        if !ok {
          Outcome(cmp, origin, trace, false);
          return;
        }
        i, rest := i + 1, rest[1..];
      }
      ok := Verify(cmp);
      LeadsHome(cmp, View(), rest, origin, trace, ok);
      Outcome(cmp, origin, trace, ok);
    }
  }
}
