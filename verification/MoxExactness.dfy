/**
 * Which traces replay accepts, exactly. Replay is greedy: a repeat group keeps every call it
 * knows, so it recognises the whole language of the recorded queue if and only if no repeat
 * group shares a call with the item right after it.
 */
module MoxExactness {
  import opened MoxLanguage
  import opened MoxReplay
  import opened Options

  // ------------------------------------------------------------------ shapes of queues

  predicate Empty<M(==)>(item: Item<M>) {
    (item.Unordered? && item.left == []) || (item.Repeat? && item.expected == multiset{})
  }

  predicate Fresh<M(==)>(item: Item<M>) {
    item.Repeat? ==> item.called == multiset{}
  }

  /** A queue as recording leaves it: no empty group, nothing called yet. */
  ghost predicate Recorded<M>(q: Queue<M>) {
    forall i :: 0 <= i < |q| ==> !Empty(q[i]) && Fresh(q[i])
  }

  /** A queue in the middle of a replay: only its head may have seen calls. */
  ghost predicate InReplay<M>(q: Queue<M>) {
    q != [] ==> !Empty(q[0]) && Recorded(q[1..])
  }

  /** The calls that the item can begin with. */
  function Alphabet<M(==)>(item: Item<M>): multiset<M> {
    match item
    case Single(m) => multiset{m}
    case Unordered(_, left) => multiset(left)
    case Repeat(_, expected, _) => expected
  }

  /** No call of a repeat group is also a call of the item right after it. */
  ghost predicate DisjointNext<M>(q: Queue<M>) {
    forall i :: 0 <= i < |q| - 1 && q[i].Repeat? ==> q[i].expected !! Alphabet(q[i + 1])
  }

  lemma TailShapes<M>(q: Queue<M>)
    requires q != [] && InReplay(q)
    ensures InReplay(q[1..]) && (DisjointNext(q) ==> DisjointNext(q[1..]))
  {
    var rest := q[1..];
    if rest != [] { assert rest[0] == q[1..][0]; }
    if DisjointNext(q) {
      forall i | 0 <= i < |rest| - 1 && rest[i].Repeat?
        ensures rest[i].expected !! Alphabet(rest[i + 1])
      {
        assert rest[i] == q[i + 1] && rest[i + 1] == q[i + 2];
      }
    }
  }

  /** Replacing the head by what is left of it keeps the shape. */
  lemma HeadShapes<M>(q: Queue<M>, item: Item<M>)
    requires q != [] && InReplay(q) && !Empty(item)
    requires item.Repeat? ==> q[0].Repeat? && item.expected == q[0].expected
    ensures InReplay([item] + q[1..]) && (DisjointNext(q) ==> DisjointNext([item] + q[1..]))
  {
    var q' := [item] + q[1..];
    assert q'[1..] == q[1..];
    if DisjointNext(q) {
      forall i | 0 <= i < |q'| - 1 && q'[i].Repeat?
        ensures q'[i].expected !! Alphabet(q'[i + 1])
      {
        assert q[i].Repeat? && q'[i + 1] == q[i + 1];
      }
    }
  }

  lemma {:induction false} StepShapes<M>(q: Queue<M>, c: M)
    requires InReplay(q) && Step(q, c).Some?
    ensures InReplay(Step(q, c).value) && (DisjointNext(q) ==> DisjointNext(Step(q, c).value))
    decreases |q|
  {
    TailShapes(q);
    match q[0]
    case Single(_) =>
    case Unordered(name, left) =>
      var fewer := Without(left, IndexOf(left, c));
      if fewer != [] { HeadShapes(q, Unordered(name, fewer)); }
    case Repeat(name, expected, called) =>
      if c in expected {
        HeadShapes(q, Repeat(name, expected, called + multiset{c}));
      } else {
        StepShapes(q[1..], c);
      }
  }

  // ------------------------------------------------------------------ one call, both ways

  lemma SplitAt<M>(q: Queue<M>, trace: seq<M>, k: nat)
    requires q != [] && k <= |trace| && Matches(q[0], trace[..k]) && InLanguage(q[1..], trace[k..])
    ensures InLanguage(q, trace)
  {
  }

  /** The first call of a described trace belongs to the first item, when nothing was called yet. */
  lemma FirstCall<M>(q: Queue<M>, trace: seq<M>)
    requires q != [] && !Empty(q[0]) && Fresh(q[0]) && InLanguage(q, trace)
    ensures trace != [] && trace[0] in Alphabet(q[0])
  {
    var k :| 0 <= k <= |trace| && Matches(q[0], trace[..k]) && InLanguage(q[1..], trace[k..]);
    var seg := trace[..k];
    match q[0]
    case Single(_) =>
      assert seg[0] == trace[0];
    case Unordered(_, left) =>
      assert left[0] in multiset(seg);
      assert seg[0] in multiset(seg) && seg[0] == trace[0];
    case Repeat(_, expected, called) =>
      var m :| m in expected;
      assert m in called + multiset(seg);
      assert seg[0] in seg && seg[0] == trace[0];
  }

  lemma ListingSize<M>(l: seq<M>)
    ensures |multiset(l)| == |l|
  {
  }

  lemma SameSize<M>(a: seq<M>, b: seq<M>)
    requires multiset(a) == multiset(b)
    ensures |a| == |b|
  {
    ListingSize(a);
    ListingSize(b);
  }

  lemma ConsHead<M>(c: M, t: seq<M>, k: nat)
    requires 1 <= k <= |t| + 1
    ensures ([c] + t)[..k] == [c] + t[..k - 1] && ([c] + t)[k..] == t[k - 1..]
    ensures multiset([c] + t[..k - 1]) == multiset{c} + multiset(t[..k - 1])
  {
  }

  lemma UnorderedSegment<M>(left: seq<M>, c: M, s: seq<M>)
    requires multiset(left) == multiset([c] + s)
    ensures var i := IndexOf(left, c);
      i < |left| && multiset(Without(left, i)) == multiset(s)
  {
    assert multiset([c] + s) == multiset{c} + multiset(s);
    assert c in multiset(left);
    var i := IndexOf(left, c);
    assert left[..|left|] == left;
    WithoutMultiset(left, i);
  }

  lemma UnorderedCall<M>(name: string, left: seq<M>, rest: Queue<M>, c: M, t: seq<M>, k: nat)
    requires 1 <= k <= |t| + 1
    requires Matches(Unordered(name, left), ([c] + t)[..k]) && InLanguage(rest, ([c] + t)[k..])
    ensures IndexOf(left, c) < |left| && InLanguage(PutBack(name, Without(left, IndexOf(left, c)), rest), t)
  {
    ConsHead(c, t, k);
    UnorderedSegment(left, c, t[..k - 1]);
    var fewer := Without(left, IndexOf(left, c));
    if fewer == [] {
      ListingSize(t[..k - 1]);
      assert t[k - 1..] == t;
    } else {
      var q' := [Unordered(name, fewer)] + rest;
      assert q'[1..] == rest;
      SplitAt(q', t, k - 1);
    }
  }

  lemma RepeatSegment<M>(item: Item<M>, c: M, s: seq<M>)
    requires item.Repeat? && Matches(item, [c] + s)
    ensures c in item.expected && Matches(item.(called := item.called + multiset{c}), s)
  {
    var seg := [c] + s;
    assert multiset(seg) == multiset{c} + multiset(s);
    assert seg[0] in seg;
    forall x | x in s
      ensures x in item.expected
    {
      assert x in seg;
    }
  }

  lemma RepeatCall<M>(q: Queue<M>, c: M, t: seq<M>, k: nat)
    requires q != [] && q[0].Repeat? && 1 <= k <= |t| + 1
    requires Matches(q[0], ([c] + t)[..k]) && InLanguage(q[1..], ([c] + t)[k..])
    ensures c in q[0].expected && InLanguage([q[0].(called := q[0].called + multiset{c})] + q[1..], t)
  {
    ConsHead(c, t, k);
    RepeatSegment(q[0], c, t[..k - 1]);
    var q' := [q[0].(called := q[0].called + multiset{c})] + q[1..];
    assert q'[1..] == q[1..];
    SplitAt(q', t, k - 1);
  }

  lemma SingleCall<M>(m: M, rest: Queue<M>, c: M, t: seq<M>, k: nat)
    requires k <= |t| + 1 && Matches(Single(m), ([c] + t)[..k]) && InLanguage(rest, ([c] + t)[k..])
    ensures c == m && InLanguage(rest, t)
  {
    ConsHead(c, t, k);
    assert t[..0] == [] && t[0..] == t;
  }

  /** When the repeat group takes no call, the call at hand is not one of its own. */
  lemma RepeatOver<M>(q: Queue<M>, c: M, t: seq<M>)
    requires q != [] && q[0].Repeat? && InReplay(q) && DisjointNext(q)
    requires Matches(q[0], ([c] + t)[..0]) && InLanguage(q[1..], ([c] + t)[0..])
    ensures c !in q[0].expected && q[0].expected <= q[0].called && InLanguage(q[1..], [c] + t)
  {
    assert ([c] + t)[0..] == [c] + t && q[0].called + multiset(([c] + t)[..0]) == q[0].called;
    FirstCall(q[1..], [c] + t);
    assert q[1..][0] == q[1];
  }

  /** Completeness of one call: in a disjoint queue replay never takes a wrong turn. */
  lemma {:induction false} CallComplete<M>(q: Queue<M>, c: M, t: seq<M>)
    requires InReplay(q) && DisjointNext(q) && InLanguage(q, [c] + t)
    ensures Step(q, c).Some? && InLanguage(Step(q, c).value, t)
    decreases |q|
  {
    var k :| 0 <= k <= |[c] + t| && Matches(q[0], ([c] + t)[..k]) && InLanguage(q[1..], ([c] + t)[k..]);
    match q[0]
    case Single(m) =>
      SingleCall(m, q[1..], c, t, k);
    case Unordered(name, left) =>
      SameSize(left, ([c] + t)[..k]);
      UnorderedCall(name, left, q[1..], c, t, k);
    case Repeat(name, expected, called) =>
      if k >= 1 {
        RepeatCall(q, c, t, k);
      } else {
        RepeatOver(q, c, t);
        TailShapes(q);
        CallComplete(q[1..], c, t);
      }
  }

  /** Soundness of one call, in the multiset reading. */
  lemma CallSound<M(!new)>(q: Queue<M>, c: M, t: seq<M>)
    requires Step(q, c).Some? && InLanguage(Step(q, c).value, t)
    ensures InLanguage(q, [c] + t)
  {
    var equal := (x: M, y: M) => x == y;
    var cmp := Comparison(equal, equal);
    var q' := Step(q, c).value;
    ConsumesPlain(cmp, q, c, q');
    DescribesPlain(cmp, q', t);
    ConsumeSound(cmp, q, c, q', t);
    DescribesPlain(cmp, q, [c] + t);
  }

  lemma PrependCall<M(!new)>(q: Queue<M>, c: M, t: seq<M>, trace: seq<M>)
    requires Step(q, c).Some? && InLanguage(Step(q, c).value, t) && trace == [c] + t
    ensures InLanguage(q, trace)
  {
    CallSound(q, c, t);
  }

  lemma AtEnd<M(!new)>(q: Queue<M>)
    requires InReplay(q)
    ensures Verified(q) <==> InLanguage<M>(q, [])
  {
    var none: seq<M> := [];
    if Verified(q) && q != [] {
      assert none[..0] == none && none[0..] == none && q[0].called + multiset(none) == q[0].called;
      SplitAt(q, none, 0);
    }
    if InLanguage(q, none) && q != [] {
      assert none[..0] == none && none[0..] == none;
      if q[0].Unordered? { ListingSize(q[0].left); }
      if q[0].Repeat? { assert q[0].called + multiset(none) == q[0].called; }
      if |q| > 1 { FirstCall(q[1..], none); }
    }
  }

  lemma {:induction false} AcceptedSound<M(!new)>(q: Queue<M>, trace: seq<M>)
    requires InReplay(q) && Accepted(q, trace)
    ensures InLanguage(q, trace)
    decreases |trace|
  {
    if trace == [] {
      AtEnd(q);
    } else {
      StepShapes(q, trace[0]);
      AcceptedSound(Step(q, trace[0]).value, trace[1..]);
      PrependCall(q, trace[0], trace[1..], trace);
    }
  }

  /**
   * Replay plus _Verify recognise exactly the language of the queue, when every repeat group
   * is disjoint from the item right after it.
   */
  lemma {:induction false} ReplayExact<M(!new)>(q: Queue<M>, trace: seq<M>)
    requires InReplay(q) && DisjointNext(q)
    ensures Accepted(q, trace) <==> InLanguage(q, trace)
    decreases |trace|
  {
    if Accepted(q, trace) { AcceptedSound(q, trace); }
    if InLanguage(q, trace) {
      if trace == [] {
        AtEnd(q);
      } else {
        assert trace == [trace[0]] + trace[1..];
        CallComplete(q, trace[0], trace[1..]);
        StepShapes(q, trace[0]);
        ReplayExact(Step(q, trace[0]).value, trace[1..]);
      }
    }
  }

  // ------------------------------------------------------------------ shortest completions

  ghost function Listing<M>(s: multiset<M>): (l: seq<M>)
    ensures multiset(l) == s
    decreases |s|
  {
    if s == multiset{} then [] else
    var m :| m in s;
    [m] + Listing(s - multiset{m})
  }

  /** How many calls the item still needs. */
  ghost function Need<M>(item: Item<M>): nat {
    match item
    case Single(_) => 1
    case Unordered(_, left) => |left|
    case Repeat(_, expected, called) => |expected - called|
  }

  ghost function NeedAll<M>(q: Queue<M>): nat {
    if q == [] then 0 else Need(q[0]) + NeedAll(q[1..])
  }

  ghost function Completion<M>(item: Item<M>): seq<M> {
    match item
    case Single(m) => [m]
    case Unordered(_, left) => left
    case Repeat(_, expected, called) => Listing(expected - called)
  }

  ghost function CompletionAll<M>(q: Queue<M>): seq<M> {
    if q == [] then [] else Completion(q[0]) + CompletionAll(q[1..])
  }

  lemma SubsetSize<M>(a: multiset<M>, b: multiset<M>)
    requires a <= b
    ensures |a| <= |b|
  {
    assert b == a + (b - a);
  }

  lemma CompletionMatches<M>(item: Item<M>)
    ensures Matches(item, Completion(item)) && |Completion(item)| == Need(item)
  {
    if item.Repeat? {
      var l := Listing(item.expected - item.called);
      ListingSize(l);
      forall c | c in l
        ensures c in item.expected
      {
        assert c in multiset(l);
      }
    }
  }

  lemma {:induction false} CompletionDescribed<M>(q: Queue<M>)
    ensures InLanguage(q, CompletionAll(q)) && |CompletionAll(q)| == NeedAll(q)
    decreases |q|
  {
    if q == [] {
    } else {
      CompletionDescribed(q[1..]);
      CompletionMatches(q[0]);
      var w, t := Completion(q[0]), CompletionAll(q[1..]);
      assert (w + t)[..|w|] == w && (w + t)[|w|..] == t;
      SplitAt(q, w + t, |w|);
    }
  }

  lemma SegmentLength<M>(item: Item<M>, seg: seq<M>)
    requires Matches(item, seg)
    ensures |seg| >= Need(item)
  {
    match item
    case Single(_) =>
    case Unordered(_, left) =>
      ListingSize(seg);
      ListingSize(left);
    case Repeat(_, expected, called) =>
      SubsetSize(expected - called, multiset(seg));
      ListingSize(seg);
  }

  lemma {:induction false} TraceLength<M>(q: Queue<M>, trace: seq<M>)
    requires InLanguage(q, trace)
    ensures |trace| >= NeedAll(q)
    decreases |q|
  {
    if q == [] {
    } else {
      var k :| 0 <= k <= |trace| && Matches(q[0], trace[..k]) && InLanguage(q[1..], trace[k..]);
      SegmentLength(q[0], trace[..k]);
      TraceLength(q[1..], trace[k..]);
    }
  }

  // ------------------------------------------------------------------ earliest failure

  lemma {:induction false} ReplayAppend<M>(q: Queue<M>, p: seq<M>, u: seq<M>)
    ensures Replay(q, p + u) ==
      match Replay(q, p) case None => None case Some(q') => Replay(q', u)
    decreases |p|
  {
    if p == [] {
      assert p + u == u;
    } else {
      assert (p + u)[0] == p[0] && (p + u)[1..] == p[1..] + u;
      if Step(q, p[0]).Some? { ReplayAppend(Step(q, p[0]).value, p[1..], u); }
    }
  }

  lemma Regroup<M>(p: seq<M>, u: seq<M>)
    requires p != []
    ensures p + u == [p[0]] + (p[1..] + u)
  {
  }

  lemma {:induction false} ReplayedSound<M(!new)>(q: Queue<M>, p: seq<M>, q': Queue<M>, u: seq<M>)
    requires Replay(q, p) == Some(q') && InLanguage(q', u)
    ensures InLanguage(q, p + u)
    decreases |p|
  {
    if p == [] {
      assert p + u == u;
    } else {
      ReplayedSound(Step(q, p[0]).value, p[1..], q', u);
      Regroup(p, u);
      PrependCall(q, p[0], p[1..] + u, p + u);
    }
  }

  /**
   * UnexpectedMethodCallError comes at exactly the first call that no continuation can repair:
   * a prefix of a trace replays without error if and only if it begins some described trace.
   */
  lemma EarliestFailure<M(!new)>(q: Queue<M>, p: seq<M>)
    requires InReplay(q) && DisjointNext(q)
    ensures Replay(q, p).Some? <==> exists u :: InLanguage(q, p + u)
  {
    if Replay(q, p).Some? {
      var q' := Replay(q, p).value;
      CompletionDescribed(q');
      ReplayedSound(q, p, q', CompletionAll(q'));
    }
    if u :| InLanguage(q, p + u) {
      ReplayExact(q, p + u);
      ReplayAppend(q, p, u);
    }
  }
}
