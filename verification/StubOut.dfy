/**
 * StubOutForTesting.Set and UnsetAll of stubout.py: attributes are replaced and later put back,
 * last one first. The entries that come back exactly are those that a parent owns and that
 * getattr hands out as they are stored, or as the function inside a staticmethod of a class.
 */
module StubOut {
  import opened Options

  // ------------------------------------------------------------------ attributes

  /**
   * What a __dict__ can hold: an object that looks the same wherever it is fetched from, a
   * staticmethod, an object that a class binds when it is fetched (a function, a classmethod, a
   * property), and what comes of such binding.
   */
  datatype Obj = Plain(id: nat) | Static(inner: Obj) | Binding(id: nat) | Bound(parent: nat, id: nat)

  datatype Key = Key(parent: nat, name: string)

  /** The __dict__ of every parent. */
  type Dicts = map<Key, Obj>

  /** Which parents are classes, and where each looks for a name that it does not own, in order. */
  datatype Hierarchy = Hierarchy(classes: set<nat>, after: map<nat, seq<nat>>) {
    function After(p: nat): seq<nat> {
      if p in after then after[p] else []
    }

    /** What holds of every method resolution order: it takes in that of each class in it. */
    ghost predicate Resolves() {
      forall p, q, r | q in After(p) && r in After(q) :: r in After(p)
    }
  }

  function Inherited(own: Dicts, ps: seq<nat>, name: string): Option<Obj> {
    if ps == [] then None
    else if Key(ps[0], name) in own then Some(own[Key(ps[0], name)])
    else Inherited(own, ps[1..], name)
  }

  /** What a class makes of an entry when it is fetched through p. */
  function Bind(p: nat, o: Obj): Obj {
    match o
    case Static(f) => f
    case Binding(id) => Bound(p, id)
    case _ => o
  }

  /** getattr: a parent that is not a class hands out its own entries as they are. */
  function GetAttr(h: Hierarchy, own: Dicts, k: Key): Option<Obj> {
    if k in own then
      Some(if k.parent in h.classes then Bind(k.parent, own[k]) else own[k])
    else
      match Inherited(own, h.After(k.parent), k.name)
      case Some(o) => Some(Bind(k.parent, o))
      case None => None
  }

  /** What Set puts in its cache: the value fetched, wrapped again if the entry is a staticmethod. */
  function Saved(h: Hierarchy, own: Dicts, k: Key): Option<Obj> {
    match GetAttr(h, own, k)
    case None => None
    case Some(o) => Some(if k in own && own[k].Static? then Static(o) else o)
  }

  // ------------------------------------------------------------------ the cache

  datatype Entry = Entry(key: Key, before: Obj)

  datatype Stub = Stub(key: Key, child: Obj)

  /** The entries put back from the last to the first. */
  function Undone(own: Dicts, cache: seq<Entry>): Dicts
    decreases |cache|
  {
    if cache == [] then own
    else var e := cache[|cache| - 1]; Undone(own[e.key := e.before], cache[..|cache| - 1])
  }

  predicate InCache(cache: seq<Entry>, k: Key) {
    exists i :: 0 <= i < |cache| && cache[i].key == k
  }

  /** Entry i is the oldest one for its attribute. */
  predicate Oldest(cache: seq<Entry>, i: nat)
    requires i < |cache|
  {
    forall j :: 0 <= j < i ==> cache[j].key != cache[i].key
  }

  /** Putting the entries back leaves alone what has none. */
  lemma {:induction false} UndoneElsewhere(own: Dicts, cache: seq<Entry>, k: Key)
    requires !InCache(cache, k)
    ensures k in Undone(own, cache) <==> k in own
    ensures k in own ==> Undone(own, cache)[k] == own[k]
    decreases |cache|
  {
    if cache == [] {
    } else {
      var n := |cache| - 1;
      assert cache[n].key != k;
      UndoneElsewhere(own[cache[n].key := cache[n].before], cache[..n], k);
    }
  }

  /** Putting the entries back gives every attribute the value of its oldest entry. */
  lemma {:induction false} UndoneOldest(own: Dicts, cache: seq<Entry>, i: nat)
    requires i < |cache| && Oldest(cache, i)
    ensures cache[i].key in Undone(own, cache) && Undone(own, cache)[cache[i].key] == cache[i].before
    decreases |cache|
  {
    var n := |cache| - 1;
    var own' := own[cache[n].key := cache[n].before];
    if i == n {
      UndoneElsewhere(own', cache[..n], cache[n].key);
    } else {
      UndoneOldest(own', cache[..n], i);
    }
  }

  lemma {:induction false} OldestExists(cache: seq<Entry>, k: Key) returns (i: nat)
    requires InCache(cache, k)
    ensures i < |cache| && cache[i].key == k && Oldest(cache, i)
  {
    i := 0;
    while cache[i].key != k
      invariant i < |cache| && forall j :: 0 <= j < i ==> cache[j].key != k
      decreases |cache| - i
    {
      i := i + 1;
    }
  }

  // ------------------------------------------------------------------ a run of Set calls

  /** A Set call: nothing changes when getattr raises AttributeError. */
  function SetOn(h: Hierarchy, own: Dicts, cache: seq<Entry>, s: Stub): (Dicts, seq<Entry>) {
    match Saved(h, own, s.key)
    case None => (own, cache)
    case Some(o) => (own[s.key := s.child], cache + [Entry(s.key, o)])
  }

  function SetAllOn(h: Hierarchy, own: Dicts, cache: seq<Entry>, stubs: seq<Stub>): (Dicts, seq<Entry>)
    decreases |stubs|
  {
    if stubs == [] then (own, cache)
    else var (own', cache') := SetOn(h, own, cache, stubs[0]); SetAllOn(h, own', cache', stubs[1..])
  }

  /** The attribute can be fetched. */
  ghost predicate Found(h: Hierarchy, own: Dicts, k: Key) {
    k in own || exists q :: q in h.After(k.parent) && Key(q, k.name) in own
  }

  lemma {:induction false} InheritedFound(own: Dicts, ps: seq<nat>, name: string)
    ensures Inherited(own, ps, name).Some? <==> exists q :: q in ps && Key(q, name) in own
  {
    if ps == [] {
    } else {
      InheritedFound(own, ps[1..], name);
      assert forall q :: q in ps <==> q == ps[0] || q in ps[1..];
    }
  }

  lemma SavedIffFound(h: Hierarchy, own: Dicts, k: Key)
    ensures Saved(h, own, k).Some? <==> Found(h, own, k)
  {
    InheritedFound(own, h.After(k.parent), k.name);
  }

  /** Stubbing an attribute that can be fetched does not make another name appear anywhere. */
  lemma FoundStays(h: Hierarchy, own: Dicts, k: Key, child: Obj, other: Key)
    requires h.Resolves() && Found(h, own, k)
    ensures Found(h, own[k := child], other) <==> Found(h, own, other)
  {
    var own' := own[k := child];
    if Found(h, own, other) && other !in own {
      var q :| q in h.After(other.parent) && Key(q, other.name) in own;
      assert Key(q, other.name) in own';
    }
    if Found(h, own', other) && other !in own' {
      var q :| q in h.After(other.parent) && Key(q, other.name) in own';
      if Key(q, other.name) !in own {
        assert Key(q, other.name) == k;
        var r :| r in h.After(k.parent) && Key(r, k.name) in own;
        assert r in h.After(other.parent) && Key(r, other.name) in own;
      }
    }
  }

  /** The nearest ancestor, counted from 0, that owns the name. */
  ghost predicate NearestOwner(h: Hierarchy, own: Dicts, k: Key, i: nat) {
    && i < |h.After(k.parent)|
    && Key(h.After(k.parent)[i], k.name) in own
    && forall j :: 0 <= j < i ==> Key(h.After(k.parent)[j], k.name) !in own
  }

  /** What a fetch of an entry x of k itself gives: only a class unwraps and binds. */
  function Fetched(h: Hierarchy, k: Key, x: Obj): Obj {
    if k.parent !in h.classes then x
    else if x.Static? then x.inner
    else if x.Binding? then Bound(k.parent, x.id)
    else x
  }

  /** o is what Python's lookup rules give Set to save for k. */
  ghost predicate SavedFrom(h: Hierarchy, own: Dicts, k: Key, o: Obj) {
    if k in own && k.parent in h.classes then
      // a class binds what can be bound; a staticmethod is unwrapped and wrapped again
      o == if own[k].Binding? then Bound(k.parent, own[k].id) else own[k]
    else if k in own then
      // a module or an instance hands out a staticmethod as it is, and Set wraps it once more
      o == if own[k].Static? then Static(own[k]) else own[k]
    else
      // an inherited staticmethod loses its wrapper
      exists i: nat :: NearestOwner(h, own, k, i) &&
        var x := own[Key(h.After(k.parent)[i], k.name)];
        o == if x.Static? then x.inner else if x.Binding? then Bound(k.parent, x.id) else x
  }

  lemma {:induction false} InheritedNearest(own: Dicts, ps: seq<nat>, name: string) returns (i: nat)
    requires Inherited(own, ps, name).Some?
    ensures i < |ps| && Key(ps[i], name) in own && Inherited(own, ps, name) == Some(own[Key(ps[i], name)])
    ensures forall j :: 0 <= j < i ==> Key(ps[j], name) !in own
  {
    if Key(ps[0], name) in own {
      i := 0;
    } else {
      i := InheritedNearest(own, ps[1..], name);
      i := i + 1;
    }
  }

  lemma SavedIsFrom(h: Hierarchy, own: Dicts, k: Key)
    requires Saved(h, own, k).Some?
    ensures SavedFrom(h, own, k, Saved(h, own, k).value)
  {
    if k !in own {
      var i := InheritedNearest(own, h.After(k.parent), k.name);
      assert NearestOwner(h, own, k, i);
    }
  }

  /** An owned entry that Set saves as it is stored. */
  predicate SavedAsStored(h: Hierarchy, k: Key, o: Obj) {
    if k.parent in h.classes then !o.Binding? else !o.Static?
  }

  lemma {:induction false} WrappedDiffers(o: Obj)
    ensures Static(o) != o
  {
    if !o.Static? {
    } else {
      WrappedDiffers(o.inner);
    }
  }

  lemma OwnedSaved(h: Hierarchy, own: Dicts, k: Key)
    requires k in own
    ensures Saved(h, own, k).Some? && (Saved(h, own, k).value == own[k] <==> SavedAsStored(h, k, own[k]))
  {
    var o := own[k];
    if o.Static? && k.parent !in h.classes {
      WrappedDiffers(o);
    }
  }

  /**
   * What holds between Set calls: attributes without an entry are as they were at the start, and
   * an oldest entry holds what Set would have saved at the start.
   */
  ghost predicate Faithful(h: Hierarchy, start: Dicts, own: Dicts, cache: seq<Entry>) {
    && (forall k :: !InCache(cache, k) ==> (k in own <==> k in start) && (k in own ==> own[k] == start[k]))
    && (forall k :: InCache(cache, k) ==> k in own)
    && (forall i :: 0 <= i < |cache| && Oldest(cache, i) && cache[i].key in start ==>
      Saved(h, start, cache[i].key) == Some(cache[i].before))
  }

  lemma SetFaithful(h: Hierarchy, start: Dicts, own: Dicts, cache: seq<Entry>, s: Stub)
    requires Faithful(h, start, own, cache)
    ensures var (own', cache') := SetOn(h, own, cache, s); Faithful(h, start, own', cache')
  {
    var (own', cache') := SetOn(h, own, cache, s);
    if cache' != cache {
      var n := |cache|;
      assert cache'[n].key == s.key;
      assert forall i :: 0 <= i < n ==> cache'[i] == cache[i];
      forall k ensures InCache(cache', k) <==> InCache(cache, k) || k == s.key {
        if InCache(cache, k) {
          var i :| 0 <= i < n && cache[i].key == k;
          assert cache'[i].key == k;
        }
      }
      forall i | 0 <= i < |cache'| && Oldest(cache', i) && cache'[i].key in start
        ensures Saved(h, start, cache'[i].key) == Some(cache'[i].before)
      {
        if i < n {
          assert Oldest(cache, i);
        } else {
          assert !InCache(cache, s.key);
        }
      }
    }
  }

  predicate Mentions(stubs: seq<Stub>, k: Key) {
    exists i :: 0 <= i < |stubs| && stubs[i].key == k
  }

  lemma MentionsNext(stubs: seq<Stub>, k: Key)
    requires stubs != []
    ensures Mentions(stubs, k) <==> k == stubs[0].key || Mentions(stubs[1..], k)
  {
    if Mentions(stubs, k) {
      var i :| 0 <= i < |stubs| && stubs[i].key == k;
      assert i > 0 ==> stubs[1..][i - 1].key == k;
    }
  }

  lemma SetOnEntries(h: Hierarchy, own: Dicts, cache: seq<Entry>, s: Stub, k: Key)
    ensures InCache(SetOn(h, own, cache, s).1, k) <==> InCache(cache, k) || (Saved(h, own, s.key).Some? && k == s.key)
  {
    var cache' := SetOn(h, own, cache, s).1;
    if Saved(h, own, s.key).Some? {
      assert cache'[|cache|].key == s.key;
      assert forall i :: 0 <= i < |cache| ==> cache'[i] == cache[i];
    }
  }

  /** After a run of Set calls: the entries are those of the attributes that could be fetched. */
  lemma {:induction false} SetAllFaithful(h: Hierarchy, start: Dicts, own: Dicts, cache: seq<Entry>, stubs: seq<Stub>)
    requires h.Resolves() && Faithful(h, start, own, cache)
    requires forall k :: Found(h, own, k) <==> Found(h, start, k)
    ensures var (own', cache') := SetAllOn(h, own, cache, stubs);
      Faithful(h, start, own', cache') &&
      forall k :: InCache(cache', k) <==> InCache(cache, k) || (Found(h, start, k) && Mentions(stubs, k))
    decreases |stubs|
  {
    if stubs == [] {
    } else {
      var s := stubs[0];
      var (own', cache') := SetOn(h, own, cache, s);
      SetFaithful(h, start, own, cache, s);
      SavedIffFound(h, own, s.key);
      if Found(h, own, s.key) {
        forall k { FoundStays(h, own, s.key, s.child, k); }
      }
      SetAllFaithful(h, start, own', cache', stubs[1..]);
      forall k ensures InCache(cache', k) <==> InCache(cache, k) || (Found(h, start, k) && k == s.key) {
        SetOnEntries(h, own, cache, s, k);
      }
      forall k ensures Mentions(stubs, k) <==> k == s.key || Mentions(stubs[1..], k) {
        MentionsNext(stubs, k);
      }
    }
  }

  // ------------------------------------------------------------------ installation

  /** stubs[i] is the last stub for its attribute. */
  predicate LastStub(stubs: seq<Stub>, i: nat)
    requires i < |stubs|
  {
    forall j :: i < j < |stubs| ==> stubs[j].key != stubs[i].key
  }

  predicate Untouched(start: Dicts, own: Dicts, k: Key) {
    (k in own <==> k in start) && (k in own && k in start ==> own[k] == start[k])
  }

  /** What the dicts hold while the stubs are in place. */
  ghost predicate Installed(h: Hierarchy, start: Dicts, own: Dicts, stubs: seq<Stub>) {
    && (forall i: nat :: i < |stubs| && LastStub(stubs, i) && Found(h, start, stubs[i].key) ==>
      stubs[i].key in own && own[stubs[i].key] == stubs[i].child)
    && (forall k :: !(Mentions(stubs, k) && Found(h, start, k)) ==> Untouched(start, own, k))
  }

  lemma {:induction false} SetAllElsewhere(h: Hierarchy, own: Dicts, cache: seq<Entry>, stubs: seq<Stub>, k: Key)
    requires h.Resolves() && !(Mentions(stubs, k) && Found(h, own, k))
    ensures Untouched(own, SetAllOn(h, own, cache, stubs).0, k)
    decreases |stubs|
  {
    if stubs == [] {
    } else {
      var s := stubs[0];
      MentionsNext(stubs, k);
      SavedIffFound(h, own, s.key);
      if Found(h, own, s.key) { FoundStays(h, own, s.key, s.child, k); }
      var (own', cache') := SetOn(h, own, cache, s);
      SetAllElsewhere(h, own', cache', stubs[1..], k);
    }
  }

  lemma {:induction false} SetAllInstalls(h: Hierarchy, own: Dicts, cache: seq<Entry>, stubs: seq<Stub>, i: nat)
    requires h.Resolves() && i < |stubs| && LastStub(stubs, i) && Found(h, own, stubs[i].key)
    ensures var own' := SetAllOn(h, own, cache, stubs).0;
      stubs[i].key in own' && own'[stubs[i].key] == stubs[i].child
    decreases |stubs|
  {
    var s, k := stubs[0], stubs[i].key;
    var (own', cache') := SetOn(h, own, cache, s);
    SavedIffFound(h, own, s.key);
    if i == 0 {
      assert !Mentions(stubs[1..], k) by {
        assert forall j :: 0 <= j < |stubs[1..]| ==> stubs[1..][j] == stubs[j + 1];
      }
      SetAllElsewhere(h, own', cache', stubs[1..], k);
    } else {
      if Found(h, own, s.key) { FoundStays(h, own, s.key, s.child, k); }
      assert stubs[1..][i - 1] == stubs[i];
      SetAllInstalls(h, own', cache', stubs[1..], i - 1);
    }
  }

  /**
   * While the stubs are in place, each attribute that could be fetched at the start holds the
   * child of its last stub, and everything else is as it was.
   */
  lemma StubsInstalled(h: Hierarchy, own: Dicts, cache: seq<Entry>, stubs: seq<Stub>)
    requires h.Resolves()
    ensures Installed(h, own, SetAllOn(h, own, cache, stubs).0, stubs)
  {
    forall i: nat | i < |stubs| && LastStub(stubs, i) && Found(h, own, stubs[i].key)
      ensures var own' := SetAllOn(h, own, cache, stubs).0;
        stubs[i].key in own' && own'[stubs[i].key] == stubs[i].child
    {
      SetAllInstalls(h, own, cache, stubs, i);
    }
    forall k | !(Mentions(stubs, k) && Found(h, own, k))
      ensures Untouched(own, SetAllOn(h, own, cache, stubs).0, k)
    {
      SetAllElsewhere(h, own, cache, stubs, k);
    }
  }

  // ------------------------------------------------------------------ restoration

  /** The attribute is not there at all, or its parent owns it and Set saves it as it is stored. */
  ghost predicate ComesBack(h: Hierarchy, start: Dicts, k: Key) {
    Found(h, start, k) ==> k in start && SavedAsStored(h, k, start[k])
  }

  predicate SameAt(r: Dicts, start: Dicts, k: Key) {
    (k in r <==> k in start) && (k in r && k in start ==> r[k] == start[k])
  }

  lemma SameEverywhere(r: Dicts, start: Dicts)
    ensures r == start <==> forall k :: SameAt(r, start, k)
  {
    if forall k :: SameAt(r, start, k) {
      assert forall k :: k in r ==> SameAt(r, start, k);
      assert forall k :: k in start ==> SameAt(r, start, k);
    }
  }

  lemma FaithfulRestores(h: Hierarchy, start: Dicts, own: Dicts, cache: seq<Entry>, k: Key)
    requires Faithful(h, start, own, cache)
    ensures SameAt(Undone(own, cache), start, k) <==>
      (InCache(cache, k) ==> k in start && SavedAsStored(h, k, start[k]))
  {
    if !InCache(cache, k) {
      UndoneElsewhere(own, cache, k);
    } else {
      var i := OldestExists(cache, k);
      UndoneOldest(own, cache, i);
      if k in start { OwnedSaved(h, start, k); }
    }
  }

  /**
   * Stubbing and unstubbing leaves every namespace as it was if and only if each stubbed attribute
   * is absent altogether or is owned by its parent and handed out by getattr as it is stored.
   */
  lemma RestoredIff(h: Hierarchy, start: Dicts, stubs: seq<Stub>)
    requires h.Resolves()
    ensures var (own, cache) := SetAllOn(h, start, [], stubs);
      Undone(own, cache) == start <==> forall k :: Mentions(stubs, k) ==> ComesBack(h, start, k)
  {
    var (own, cache) := SetAllOn(h, start, [], stubs);
    SetAllFaithful(h, start, start, [], stubs);
    forall k ensures SameAt(Undone(own, cache), start, k) <==> (Mentions(stubs, k) ==> ComesBack(h, start, k)) {
      FaithfulRestores(h, start, own, cache, k);
    }
    SameEverywhere(Undone(own, cache), start);
  }

  // ------------------------------------------------------------------ the program

  class Namespaces {
    const hierarchy: Hierarchy
    var own: Dicts

    constructor (h: Hierarchy, dicts: Dicts)
      ensures hierarchy == h && own == dicts
    {
      hierarchy := h;
      own := dicts;
    }

    /** setattr */
    method SetAttr(k: Key, o: Obj)
      modifies this
      ensures own == old(own)[k := o]
    {
      own := own[k := o];
    }
  }

  class StubOutForTesting {
    const objects: Namespaces
    var cache: seq<Entry>

    constructor (world: Namespaces)
      ensures objects == world && cache == []
    {
      objects := world;
      cache := [];
    }

    /** Set; ok is false when it raises AttributeError. */
    method Set(k: Key, child: Obj) returns (ok: bool)
      modifies this, objects
      ensures ok <==> Found(objects.hierarchy, old(objects.own), k)
      ensures ok ==> objects.own == old(objects.own)[k := child]
      ensures ok ==> GetAttr(objects.hierarchy, objects.own, k) == Some(Fetched(objects.hierarchy, k, child))
      ensures ok ==>
        |cache| == |old(cache)| + 1 && cache[..|old(cache)|] == old(cache) && cache[|old(cache)|].key == k
      ensures ok ==> SavedFrom(objects.hierarchy, old(objects.own), k, cache[|old(cache)|].before)
      ensures !ok ==> objects.own == old(objects.own) && cache == old(cache)
      ensures (objects.own, cache) == SetOn(objects.hierarchy, old(objects.own), old(cache), Stub(k, child))
    {
      SavedIffFound(objects.hierarchy, objects.own, k);
      var fetched := GetAttr(objects.hierarchy, objects.own, k);
      if fetched.None? {
        return false;
      }
      SavedIsFrom(objects.hierarchy, objects.own, k);
      var oldChild := fetched.value;
      if k in objects.own && objects.own[k].Static? {
        oldChild := Static(oldChild);
      }
      cache := cache + [Entry(k, oldChild)];
      objects.SetAttr(k, child);
      ok := true;
    }

    /** The Set calls of a test, which goes on after an AttributeError. */
    method SetAll(stubs: seq<Stub>)
      modifies this, objects
      ensures (objects.own, cache) == SetAllOn(objects.hierarchy, old(objects.own), old(cache), stubs)
      ensures objects.hierarchy.Resolves() ==>
        Installed(objects.hierarchy, old(objects.own), objects.own, stubs)
    {
      if objects.hierarchy.Resolves() { StubsInstalled(objects.hierarchy, objects.own, cache, stubs); }
      var i := 0;
      assert stubs[0..] == stubs;
      while i < |stubs|
        invariant 0 <= i <= |stubs|
        invariant SetAllOn(objects.hierarchy, objects.own, cache, stubs[i..]) ==
          SetAllOn(objects.hierarchy, old(objects.own), old(cache), stubs)
      {
        assert stubs[i..][1..] == stubs[i + 1..];
        var ok := Set(stubs[i].key, stubs[i].child);
        i := i + 1;
      }
    }

    /** list.reverse() */
    method Reverse()
      modifies this`cache
      ensures |cache| == |old(cache)|
      ensures forall j :: 0 <= j < |cache| ==> cache[j] == old(cache)[|cache| - 1 - j]
    {
      var c := cache;
      cache := seq(|c|, j requires 0 <= j < |c| => c[|c| - 1 - j]);
    }

    /** The cache is reversed, then put back from front to back, then emptied. */
    method UnsetAll()
      modifies this, objects
      ensures objects.own == Undone(old(objects.own), old(cache)) && cache == []
    {
      Reverse();
      var i, n := 0, |cache|;
      ghost var saved := old(cache);
      assert saved[..n] == saved;
      while i < n
        invariant 0 <= i <= n == |saved| == |cache|
        invariant forall j :: 0 <= j < n ==> cache[j] == saved[n - 1 - j]
        invariant Undone(objects.own, saved[..n - i]) == Undone(old(objects.own), saved)
      {
        assert saved[..n - i][..n - i - 1] == saved[..n - i - 1];
        objects.SetAttr(cache[i].key, cache[i].before);
        i := i + 1;
      }
      cache := [];
    }

    /** Stubbing, unstubbing and unstubbing again, on a fresh object. */
    method StubAndUnset(stubs: seq<Stub>)
      requires objects.hierarchy.Resolves() && cache == []
      modifies this, objects
      ensures cache == []
      ensures objects.own == old(objects.own) <==>
        forall k :: Mentions(stubs, k) ==> ComesBack(objects.hierarchy, old(objects.own), k)
    {
      RestoredIff(objects.hierarchy, objects.own, stubs);
      SetAll(stubs);
      UnsetAll();
      UnsetAll();
    }
  }
}
