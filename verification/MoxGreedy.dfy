/**
 * The limit of greedy replay: as soon as a repeat group shares a call with the item right
 * after it, some trace that the recording describes is rejected.
 */
module MoxGreedy {
  import opened MoxLanguage
  import opened MoxReplay
  import opened MoxExactness
  import opened Options

  /** The word is a complete set of calls for the item, and none is missing or left over. */
  ghost predicate Minimal<M>(item: Item<M>, word: seq<M>) {
    Matches(item, word) && |word| == Need(item)
  }

  /** The queue once a minimal word has been replayed against its head. */
  ghost function Spent<M>(q: Queue<M>): Queue<M>
    requires q != []
  {
    if q[0].Repeat? then [q[0].(called := q[0].expected)] + q[1..] else q[1..]
  }

  lemma {:induction false} UnorderedWord<M>(name: string, left: seq<M>, rest: Queue<M>, word: seq<M>)
    requires left != [] && multiset(word) == multiset(left)
    ensures Replay([Unordered(name, left)] + rest, word) == Some(rest)
    decreases |word|
  {
    SameSize(left, word);
    var c, t := word[0], word[1..];
    assert word == [c] + t;
    UnorderedSegment(left, c, t);
    var fewer := Without(left, IndexOf(left, c));
    SameSize(fewer, t);
    assert ([Unordered(name, left)] + rest)[1..] == rest;
    if fewer == [] {
    } else {
      UnorderedWord(name, fewer, rest, t);
    }
  }

  lemma {:induction false} RepeatWord<M>(item: Item<M>, rest: Queue<M>, word: seq<M>)
    requires item.Repeat? && forall c :: c in word ==> c in item.expected
    ensures Replay([item] + rest, word) == Some([item.(called := item.called + multiset(word))] + rest)
    decreases |word|
  {
    if word == [] {
      assert item.called + multiset(word) == item.called;
    } else {
      var c, t := word[0], word[1..];
      assert word == [c] + t;
      assert ([item] + rest)[1..] == rest;
      RepeatWord(item.(called := item.called + multiset{c}), rest, t);
      assert item.called + multiset{c} + multiset(t) == item.called + multiset(word);
    }
  }

  lemma WholeMultiset<M>(a: multiset<M>, b: multiset<M>)
    requires a <= b && |a| == |b|
    ensures a == b
  {
    assert b == a + (b - a);
    assert |b - a| == 0;
  }

  lemma WordSpent<M>(q: Queue<M>, word: seq<M>)
    requires q != [] && !Empty(q[0]) && Fresh(q[0]) && Minimal(q[0], word)
    ensures Replay(q, word) == Some(Spent(q))
  {
    assert q == [q[0]] + q[1..];
    match q[0]
    case Single(m) =>
      assert word[1..] == [];
    case Unordered(name, left) =>
      UnorderedWord(name, left, q[1..], word);
    case Repeat(_, expected, called) =>
      RepeatWord(q[0], q[1..], word);
      ListingSize(word);
      assert expected - called == expected && called + multiset(word) == multiset(word);
      WholeMultiset(expected, multiset(word));
  }

  lemma {:induction false} AcceptedLength<M(!new)>(q: Queue<M>, trace: seq<M>)
    requires InReplay(q) && Accepted(q, trace)
    ensures |trace| >= NeedAll(q)
  {
    AcceptedSound(q, trace);
    TraceLength(q, trace);
  }

  lemma NothingNeeded<M>(q: Queue<M>)
    requires q != [] && q[0].Repeat? && q[0].expected <= q[0].called
    ensures NeedAll(q) == NeedAll(q[1..])
  {
    assert q[0].expected - q[0].called == multiset{};
  }

  /** A satisfied repeat group that takes one call too many leaves too few for the rest. */
  lemma SpentRepeat<M(!new)>(q: Queue<M>, t: seq<M>)
    requires q != [] && Recorded(q) && q[0].Repeat? && |t| == NeedAll(q[1..])
    requires Accepted(Spent(q), t)
    ensures Accepted(q[1..], t) && (t != [] ==> t[0] !in q[0].expected)
  {
    var full := Spent(q);
    var rest := q[1..];
    assert full[1..] == rest;
    if t != [] {
      var c := t[0];
      if c in full[0].expected {
        var after := [full[0].(called := full[0].called + multiset{c})] + rest;
        assert Step(full, c) == Some(after);
        HeadShapes(full, after[0]);
        assert after[1..] == rest;
        NothingNeeded(after);
        AcceptedLength(after, t[1..]);
        assert false;
      }
    }
  }

  /** When there is no call to spare, replay can only cut the trace where the words end. */
  lemma HeadForced<M(!new)>(q: Queue<M>, word: seq<M>, t: seq<M>)
    requires q != [] && Recorded(q) && Minimal(q[0], word) && |t| == NeedAll(q[1..])
    requires Accepted(q, word + t)
    ensures Accepted(q[1..], t)
    ensures q[0].Repeat? && t != [] ==> t[0] !in q[0].expected
  {
    WordSpent(q, word);
    ReplayAppend(q, word, t);
    if q[0].Repeat? { SpentRepeat(q, t); }
  }

  /** A minimal word for the item that begins with v. */
  ghost function StartingWith<M>(item: Item<M>, v: M): (word: seq<M>)
    requires v in Alphabet(item)
  {
    match item
    case Single(m) => [m]
    case Unordered(_, left) => [v] + (if IndexOf(left, v) < |left| then Without(left, IndexOf(left, v)) else [])
    case Repeat(_, expected, _) => [v] + Listing(expected - multiset{v})
  }

  lemma ConsMultiset<M>(v: M, l: seq<M>)
    ensures multiset([v] + l) == multiset{v} + multiset(l)
  {
  }

  lemma MovedToFront<M>(left: seq<M>, v: M)
    requires v in left
    ensures IndexOf(left, v) < |left| && multiset([v] + Without(left, IndexOf(left, v))) == multiset(left)
  {
    var i := IndexOf(left, v);
    assert left[..|left|] == left;
    WithoutMultiset(left, i);
    ConsMultiset(v, Without(left, i));
  }

  lemma StartUnordered<M>(name: string, left: seq<M>, v: M)
    requires v in left
    ensures IndexOf(left, v) < |left| && Minimal(Unordered(name, left), [v] + Without(left, IndexOf(left, v)))
  {
    MovedToFront(left, v);
    SameSize([v] + Without(left, IndexOf(left, v)), left);
  }

  lemma WholeWord<M>(name: string, expected: multiset<M>, word: seq<M>)
    requires multiset(word) == expected
    ensures Minimal(Repeat(name, expected, multiset{}), word)
  {
    ListingSize(word);
    assert expected - multiset{} == expected && multiset{} + multiset(word) == expected;
    forall c | c in word
      ensures c in expected
    {
      assert c in multiset(word);
    }
  }

  lemma StartRepeat<M>(name: string, expected: multiset<M>, v: M)
    requires v in expected
    ensures Minimal(Repeat(name, expected, multiset{}), [v] + Listing(expected - multiset{v}))
  {
    var word := [v] + Listing(expected - multiset{v});
    ConsMultiset(v, Listing(expected - multiset{v}));
    WholeWord(name, expected, word);
  }

  lemma StartingWithMinimal<M>(item: Item<M>, v: M)
    requires Fresh(item) && v in Alphabet(item)
    ensures Minimal(item, StartingWith(item, v)) && StartingWith(item, v)[0] == v
  {
    match item
    case Single(_) =>
    case Unordered(name, left) => StartUnordered(name, left, v);
    case Repeat(name, expected, _) => StartRepeat(name, expected, v);
  }

  lemma JoinWords<M>(q: Queue<M>, word: seq<M>, t: seq<M>)
    requires q != [] && Minimal(q[0], word) && InLanguage(q[1..], t) && |t| == NeedAll(q[1..])
    ensures InLanguage(q, word + t) && |word + t| == NeedAll(q)
  {
    assert (word + t)[..|word|] == word && (word + t)[|word|..] == t;
    SplitAt(q, word + t, |word|);
  }

  /**
   * A described trace that replay rejects: every item gets a shortest word, and the one after
   * the group starts with v.
   */
  lemma {:induction false} Overlap<M(!new)>(q: Queue<M>, i: nat, v: M) returns (t: seq<M>)
    requires Recorded(q) && i + 1 < |q| && q[i].Repeat? && v in q[i].expected && v in Alphabet(q[i + 1])
    ensures InLanguage(q, t) && |t| == NeedAll(q) && !Accepted(q, t)
    decreases i
  {
    var rest := q[1..];
    CompletionMatches(q[0]);
    var word, tail := Completion(q[0]), [];
    if i == 0 {
      assert rest[0] == q[1];
      StartingWithMinimal(rest[0], v);
      CompletionDescribed(rest[1..]);
      tail := StartingWith(rest[0], v) + CompletionAll(rest[1..]);
      JoinWords(rest, StartingWith(rest[0], v), CompletionAll(rest[1..]));
    } else {
      assert rest[i - 1] == q[i] && rest[i] == q[i + 1];
      tail := Overlap(rest, i - 1, v);
    }
    JoinWords(q, word, tail);
    t := word + tail;
    if Accepted(q, t) { HeadForced(q, word, tail); }
  }

  /**
   * For a recorded queue and plain equality, replay plus _Verify accept exactly the described
   * traces if and only if no repeat group shares a call with the item right after it.
   */
  lemma ExactIffDisjoint<M(!new)>(q: Queue<M>)
    requires Recorded(q)
    ensures (forall t :: Accepted(q, t) <==> InLanguage(q, t)) <==> DisjointNext(q)
  {
    if DisjointNext(q) {
      forall t
        ensures Accepted(q, t) <==> InLanguage(q, t)
      {
        ReplayExact(q, t);
      }
    } else {
      var i :| 0 <= i < |q| - 1 && q[i].Repeat? && !(q[i].expected !! Alphabet(q[i + 1]));
      var v :| v in q[i].expected && v in Alphabet(q[i + 1]);
      var t := Overlap(q, i, v);
    }
  }
}
