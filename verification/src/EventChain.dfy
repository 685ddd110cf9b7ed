/** The event chain of src/np_eventqueue.c: a work queue of at most 255 events that grows
    while it is drained, holds one reference per queued object and releases them at the end. */
module EventChain {
  import opened Bytes

  const MAX_EVENTS := 255

  type uint8 = n: int | 0 <= n < 0x100
  type Dhkey = seq<byte>
  type Object = nat

  datatype Event = Event(kind: nat, target: Dhkey, userData: Option<Object>, source: Dhkey)

  /** An event to add, with the key it is addressed to. */
  datatype Post = Post(dhkey: Dhkey, event: Event)

  /** What a key does with an event: any change of the world, and the events it adds to
      the running chain. */
  type Handler<!W> = (W, Event) -> (W, seq<Post>)

  /** What the chain does, in order: take a reference, run an event, release a reference. */
  datatype Action = Ref(o: Object) | Exec(e: Event) | Unref(o: Object)

  function Stamped(p: Post): Event {
    p.event.(source := p.dhkey)
  }

  /** The event a post becomes: addressed to the post's key, and otherwise as posted. */
  predicate Addressed(p: Post, e: Event) {
    e.source == p.dhkey && e.kind == p.event.kind && e.target == p.event.target && e.userData == p.event.userData
  }

  function StampedAll(ps: seq<Post>): (es: seq<Event>)
    ensures |es| == |ps|
    ensures forall i | 0 <= i < |ps| :: es[i] == Stamped(ps[i])
  {
    seq(|ps|, i requires 0 <= i < |ps| => Stamped(ps[i]))
  }

  // ------------------------------------------------------ what a chain is

  function Concat(posts: seq<seq<Event>>): seq<Event> {
    if posts == [] then [] else Concat(posts[..|posts| - 1]) + posts[|posts| - 1]
  }

  /** Everything queued by the first event and the posts so far. */
  function Queue(first: Event, posts: seq<seq<Event>>): seq<Event> {
    [first] + Concat(posts)
  }

  /** A history of a chain: `posts[i]` are the events added while event i ran, and
      `worlds[i]` is the world it ran in. */
  datatype History<W> = History(posts: seq<seq<Event>>, worlds: seq<W>)

  /** Step i runs the i-th event ever queued, which was queued before the step. */
  ghost predicate Ran<W>(h: Handler<W>, first: Event, p: History<W>, i: nat)
    requires i < |p.posts| && |p.worlds| == |p.posts| + 1
  {
    && i < |Queue(first, p.posts[..i])|
    && var (w, posted) := h(p.worlds[i], Queue(first, p.posts[..i])[i]);
       w == p.worlds[i + 1] && StampedAll(posted) == p.posts[i]
  }

  ghost predicate IsHistory<W>(h: Handler<W>, w0: W, first: Event, p: History<W>) {
    && |p.worlds| == |p.posts| + 1 && p.worlds[0] == w0
    && forall i | 0 <= i < |p.posts| :: Ran(h, first, p, i)
  }

  /** A history in which every queued event has run. */
  ghost predicate IsComplete<W>(h: Handler<W>, w0: W, first: Event, p: History<W>) {
    IsHistory(h, w0, first, p) && |p.posts| == |Queue(first, p.posts)|
  }

  lemma {:induction false} ConcatGrows(posts: seq<seq<Event>>, i: nat)
    requires i <= |posts|
    ensures Concat(posts[..i]) <= Concat(posts)
    decreases |posts| - i
  {
    if i == |posts| {
      assert posts[..i] == posts;
    } else {
      ConcatGrows(posts, i + 1);
      assert posts[..i + 1][..i] == posts[..i];
    }
  }

  /** The handler decides everything: of two histories one is a beginning of the other. */
  lemma {:induction false} HistoriesAgree<W>(h: Handler<W>, w0: W, first: Event, p: History<W>, q: History<W>, n: nat)
    requires IsHistory(h, w0, first, p) && IsHistory(h, w0, first, q)
    requires n <= |p.posts| && n <= |q.posts|
    ensures p.posts[..n] == q.posts[..n] && p.worlds[n] == q.worlds[n]
  {
    if n > 0 {
      HistoriesAgree(h, w0, first, p, q, n - 1);
      assert Ran(h, first, p, n - 1) && Ran(h, first, q, n - 1);
      assert p.posts[..n] == p.posts[..n - 1] + [p.posts[n - 1]];
      assert q.posts[..n] == q.posts[..n - 1] + [q.posts[n - 1]];
    }
  }

  /** No history goes beyond a complete one, and its queue is a beginning of the complete queue. */
  lemma CompleteIsLongest<W>(h: Handler<W>, w0: W, first: Event, p: History<W>, full: History<W>)
    requires IsHistory(h, w0, first, p) && IsComplete(h, w0, first, full)
    ensures |p.posts| <= |full.posts| && Queue(first, p.posts) <= Queue(first, full.posts)
  {
    var n := |full.posts|;
    if |p.posts| > n {
      assert Ran(h, first, p, n);
      assert full.posts[..n] == full.posts;
      HistoriesAgree(h, w0, first, p, full, n);
      assert false;
    }
    HistoriesAgree(h, w0, first, p, full, |p.posts|);
    assert p.posts[..|p.posts|] == p.posts;
    ConcatGrows(full.posts, |p.posts|);
  }

  /** A handler has at most one complete history. */
  lemma CompleteIsUnique<W>(h: Handler<W>, w0: W, first: Event, p: History<W>, q: History<W>)
    requires IsComplete(h, w0, first, p) && IsComplete(h, w0, first, q)
    ensures p.posts == q.posts && p.worlds[|p.posts|] == q.worlds[|q.posts|]
  {
    CompleteIsLongest(h, w0, first, p, q);
    CompleteIsLongest(h, w0, first, q, p);
    HistoriesAgree(h, w0, first, p, q, |p.posts|);
    assert p.posts[..|p.posts|] == p.posts && q.posts[..|q.posts|] == q.posts;
  }

  /** Every event of a chain is addressed to the key it was posted to, and carries the kind,
      target and user data it was posted with: the first one, and those the handler posts. */
  lemma EventsReachTheirKeys<W>(h: Handler<W>, w0: W, p: Post, q: History<W>)
    requires IsHistory(h, w0, Stamped(p), q)
    ensures Addressed(p, Queue(Stamped(p), q.posts)[0])
    ensures forall i | 0 <= i < |q.posts| ::
              && i < |Queue(Stamped(p), q.posts[..i])|
              && PostedAs(h(q.worlds[i], Queue(Stamped(p), q.posts[..i])[i]).1, q.posts[i])
  {
    forall i | 0 <= i < |q.posts|
      ensures i < |Queue(Stamped(p), q.posts[..i])|
      ensures PostedAs(h(q.worlds[i], Queue(Stamped(p), q.posts[..i])[i]).1, q.posts[i])
    {
      assert Ran(h, Stamped(p), q, i);
    }
  }

  predicate PostedAs(ps: seq<Post>, es: seq<Event>) {
    |ps| == |es| && forall j | 0 <= j < |ps| :: Addressed(ps[j], es[j])
  }

  // ------------------------------------------------------------ references

  function Refs(es: seq<Event>): seq<Action> {
    if es == [] then []
    else Refs(es[..|es| - 1]) + RefOf(es[|es| - 1])
  }

  function RefOf(e: Event): seq<Action> {
    if e.userData.Some? then [Ref(e.userData.value)] else []
  }

  function Unrefs(es: seq<Event>): seq<Action> {
    if es == [] then []
    else Unrefs(es[..|es| - 1]) + UnrefOf(es[|es| - 1])
  }

  function UnrefOf(e: Event): seq<Action> {
    if e.userData.Some? then [Unref(e.userData.value)] else []
  }

  /** The actions up to and including the first n steps: each step runs an event and takes
      a reference for every event it adds. */
  function Drained(first: Event, posts: seq<seq<Event>>): seq<Action> {
    if posts == [] then RefOf(first)
    else
      var n := |posts| - 1;
      if n < |Queue(first, posts[..n])| then
        Drained(first, posts[..n]) + [Exec(Queue(first, posts[..n])[n])] + Refs(posts[n])
      else Drained(first, posts[..n])
  }

  /** References taken minus references released. */
  function Balance(log: seq<Action>, o: Object): int {
    multiset(log)[Ref(o)] as int - multiset(log)[Unref(o)] as int
  }

  /** The events of a log, in the order they ran. */
  function Executed(log: seq<Action>): seq<Event> {
    if log == [] then []
    else
      var a := log[|log| - 1];
      Executed(log[..|log| - 1]) + (if a.Exec? then [a.e] else [])
  }

  lemma {:induction false} ExecutedConcat(a: seq<Action>, b: seq<Action>)
    ensures Executed(a + b) == Executed(a) + Executed(b)
  {
    if b == [] {
      assert a + b == a;
    } else {
      var n := |b| - 1;
      assert (a + b)[..|a + b| - 1] == a + b[..n];
      ExecutedConcat(a, b[..n]);
    }
  }

  lemma {:induction false} NothingExecuted(log: seq<Action>)
    requires forall i | 0 <= i < |log| :: !log[i].Exec?
    ensures Executed(log) == []
  {
    if log != [] {
      NothingExecuted(log[..|log| - 1]);
    }
  }

  /** How many of the events carry this object. */
  function Carrying(es: seq<Event>, o: Object): nat {
    if es == [] then 0
    else Carrying(es[..|es| - 1], o) + (if es[|es| - 1].userData == Some(o) then 1 else 0)
  }

  lemma {:induction false} CarryingConcat(a: seq<Event>, b: seq<Event>, o: Object)
    ensures Carrying(a + b, o) == Carrying(a, o) + Carrying(b, o)
  {
    if b == [] {
      assert a + b == a;
    } else {
      var n := |b| - 1;
      assert (a + b)[..|a + b| - 1] == a + b[..n];
      CarryingConcat(a, b[..n], o);
    }
  }

  lemma {:induction false} RefsBalance(es: seq<Event>, o: Object)
    ensures Balance(Refs(es), o) == Carrying(es, o)
  {
    if es != [] {
      RefsBalance(es[..|es| - 1], o);
    }
  }

  lemma {:induction false} UnrefsBalance(es: seq<Event>, o: Object)
    ensures Balance(Unrefs(es), o) + Carrying(es, o) == 0
  {
    if es != [] {
      UnrefsBalance(es[..|es| - 1], o);
    }
  }

  lemma {:induction false} RefsAreRefs(es: seq<Event>)
    ensures forall i | 0 <= i < |Refs(es)| :: Refs(es)[i].Ref?
  {
    if es != [] {
      RefsAreRefs(es[..|es| - 1]);
    }
  }

  lemma {:induction false} UnrefsAreUnrefs(es: seq<Event>)
    ensures forall i | 0 <= i < |Unrefs(es)| :: Unrefs(es)[i].Unref?
  {
    if es != [] {
      UnrefsAreUnrefs(es[..|es| - 1]);
    }
  }

  /** Every event ran after it had been queued. */
  ghost predicate Causal(first: Event, posts: seq<seq<Event>>) {
    forall i | 0 <= i < |posts| :: i < |Queue(first, posts[..i])|
  }

  lemma CausalFront(first: Event, posts: seq<seq<Event>>)
    requires Causal(first, posts) && posts != []
    ensures Causal(first, posts[..|posts| - 1])
    ensures |posts| - 1 < |Queue(first, posts[..|posts| - 1])|
    ensures Queue(first, posts) == Queue(first, posts[..|posts| - 1]) + posts[|posts| - 1]
  {
    var front := posts[..|posts| - 1];
    assert forall i | 0 <= i < |front| :: front[..i] == posts[..i];
  }

  /** While it drains, the chain holds every object once per queued event that carries it. */
  lemma {:induction false} DrainedHolds(first: Event, posts: seq<seq<Event>>, o: Object)
    requires Causal(first, posts)
    ensures Balance(Drained(first, posts), o) == Carrying(Queue(first, posts), o)
  {
    hide Queue;
    if posts == [] {
      QueueOfNothing(first, o);
    } else {
      var n := |posts| - 1;
      CausalFront(first, posts);
      DrainedHolds(first, posts[..n], o);
      RefsBalance(posts[n], o);
      CarryingConcat(Queue(first, posts[..n]), posts[n], o);
    }
  }

  lemma QueueOfNothing(first: Event, o: Object)
    ensures Queue(first, []) == [first]
    ensures Carrying([first], o) == Balance(RefOf(first), o)
  {
    assert [first][..0] == [];
  }

  /** The events that ran are the first of the queue, in the order they were added. */
  lemma {:induction false} DrainedRuns(first: Event, posts: seq<seq<Event>>)
    requires Causal(first, posts)
    ensures |posts| <= |Queue(first, posts)|
    ensures Executed(Drained(first, posts)) == Queue(first, posts)[..|posts|]
  {
    hide Queue;
    if posts == [] {
      NothingExecuted(RefOf(first));
    } else {
      var n := |posts| - 1;
      CausalFront(first, posts);
      DrainedRuns(first, posts[..n]);
      var q, refs := Queue(first, posts[..n]), Refs(posts[n]);
      RefsAreRefs(posts[n]);
      NothingExecuted(refs);
      OneMoreRan(Drained(first, posts[..n]), q[n], refs);
      assert q[..n] + [q[n]] == (q + posts[n])[..n + 1];
    }
  }

  lemma OneMoreRan(d: seq<Action>, e: Event, refs: seq<Action>)
    requires Executed(refs) == []
    ensures Executed(d + [Exec(e)] + refs) == Executed(d) + [e]
  {
    ExecutedConcat(d + [Exec(e)], refs);
    ExecutedConcat(d, [Exec(e)]);
    assert [Exec(e)][..0] == [];
  }

  /** The whole log of a chain: drain, then release once per event, in queue order. */
  function ChainLog(first: Event, posts: seq<seq<Event>>): seq<Action> {
    Drained(first, posts) + Unrefs(Queue(first, posts))
  }

  /** A chain gives back every reference it took. */
  lemma ChainBalances(first: Event, posts: seq<seq<Event>>, o: Object)
    requires Causal(first, posts)
    ensures Balance(ChainLog(first, posts), o) == 0
  {
    hide Queue, Drained;
    DrainedHolds(first, posts, o);
    UnrefsBalance(Queue(first, posts), o);
  }

  lemma {:induction false} DrainedReleasesNothing(first: Event, posts: seq<seq<Event>>)
    ensures forall i | 0 <= i < |Drained(first, posts)| :: !Drained(first, posts)[i].Unref?
  {
    hide Queue;
    if posts != [] {
      DrainedReleasesNothing(first, posts[..|posts| - 1]);
      RefsAreRefs(posts[|posts| - 1]);
    }
  }

  /** As long as an event is still to run, everything referenced so far is held. */
  lemma HeldUntilTheLastEvent(first: Event, posts: seq<seq<Event>>, k: nat, j: nat, i: nat)
    requires i < k <= j < |ChainLog(first, posts)|
    requires ChainLog(first, posts)[j].Exec? && ChainLog(first, posts)[i].Ref?
    ensures Balance(ChainLog(first, posts)[..k], ChainLog(first, posts)[i].o) >= 1
  {
    hide Queue, Drained;
    var log := ChainLog(first, posts);
    DrainedReleasesNothing(first, posts);
    UnrefsAreUnrefs(Queue(first, posts));
    assert log[..k] == Drained(first, posts)[..k];
    NeverReleased(log[..k], i);
  }

  lemma NeverReleased(log: seq<Action>, i: nat)
    requires i < |log| && log[i].Ref? && forall k | 0 <= k < |log| :: !log[k].Unref?
    ensures Balance(log, log[i].o) >= 1
  {
    assert log[i] in log;
    assert Unref(log[i].o) !in log;
  }

  /** The object of a running event was referenced when the event was queued. */
  lemma {:induction false} RunningEventIsHeld(first: Event, posts: seq<seq<Event>>, j: nat)
    requires Causal(first, posts) && j < |Drained(first, posts)|
    requires Drained(first, posts)[j].Exec? && Drained(first, posts)[j].e.userData.Some?
    ensures Balance(Drained(first, posts)[..j], Drained(first, posts)[j].e.userData.value) >= 1
  {
    hide Queue;
    var log := Drained(first, posts);
    if posts != [] {
      var n := |posts| - 1;
      CausalFront(first, posts);
      var d, q := Drained(first, posts[..n]), Queue(first, posts[..n]);
      if j < |d| {
        RunningEventIsHeld(first, posts[..n], j);
        assert log[..j] == d[..j];
      } else {
        RefsAreRefs(posts[n]);
        assert log[j] == Exec(q[n]) && log[..j] == d;
        DrainedHolds(first, posts[..n], q[n].userData.value);
        CarriedAtLeastOnce(q, n);
      }
    }
  }

  lemma {:induction false} CarriedAtLeastOnce(es: seq<Event>, i: nat)
    requires i < |es| && es[i].userData.Some?
    ensures Carrying(es, es[i].userData.value) >= 1
  {
    if i < |es| - 1 {
      CarriedAtLeastOnce(es[..|es| - 1], i);
    }
  }

  /** A chain never releases what it does not hold. */
  lemma NeverOverdrawn(first: Event, posts: seq<seq<Event>>, k: nat, o: Object)
    requires Causal(first, posts) && k <= |ChainLog(first, posts)|
    ensures Balance(ChainLog(first, posts)[..k], o) >= 0
  {
    hide Queue, Drained, Unrefs;
    var d, u := Drained(first, posts), Unrefs(Queue(first, posts));
    DrainedReleasesNothing(first, posts);
    if k <= |d| {
      assert (d + u)[..k] == d[..k];
      NothingReleased(d[..k], o);
    } else {
      assert (d + u)[..k] == d + u[..k - |d|];
      DrainedHolds(first, posts, o);
      UnrefsBalance(Queue(first, posts), o);
      UnrefsAreUnrefs(Queue(first, posts));
      ReleasedSoFar(u, k - |d|, o);
    }
  }

  lemma NothingReleased(log: seq<Action>, o: Object)
    requires forall i | 0 <= i < |log| :: !log[i].Unref?
    ensures Balance(log, o) >= 0
  {
    assert Unref(o) !in log;
  }

  lemma ReleasedSoFar(u: seq<Action>, k: nat, o: Object)
    requires k <= |u| && forall i | 0 <= i < |u| :: u[i].Unref?
    ensures Balance(u, o) <= Balance(u[..k], o)
  {
    assert u == u[..k] + u[k..];
    assert Ref(o) !in u[k..];
  }

  // -------------------------------------------------------- the runtime

  /** struct np_event_runtime_s */
  class Runtime {
    const events: array<Event>
    var size: uint8

    ghost predicate Valid()
      reads this
    {
      events.Length == MAX_EVENTS && size <= MAX_EVENTS
    }

    function Queued(): seq<Event>
      requires Valid()
      reads this, events
    {
      events[..size]
    }

    constructor ()
      ensures Valid() && fresh(events) && Queued() == []
    {
      events := new Event[MAX_EVENTS](i => Event(0, [], None, []));
      size := 0;
    }

    /** __np_event_runtime_add_event into a running chain. A full chain fails the ASSERT. */
    method AddEvent(p: Post) returns (ok: bool, taken: seq<Action>)
      requires Valid()
      modifies this, events
      ensures Valid()
      ensures ok == (|old(Queued())| < MAX_EVENTS)
      ensures ok ==> Queued() == old(Queued()) + [Stamped(p)] && taken == RefOf(Stamped(p))
      ensures ok ==> Addressed(p, Queued()[|old(Queued())|])
      ensures !ok ==> Queued() == old(Queued()) && taken == []
    {
      if size == MAX_EVENTS {
        return false, [];
      }
      var event := p.event.(source := p.dhkey);
      taken := if event.userData.Some? then [Ref(event.userData.value)] else [];
      events[size] := event;
      size := size + 1;
      return true, taken;
    }

    /** A handler's posts, added one after the other. */
    method AddAll(ps: seq<Post>) returns (ok: bool, taken: seq<Action>)
      requires Valid()
      modifies this, events
      ensures Valid()
      ensures ok == (|old(Queued())| + |ps| <= MAX_EVENTS)
      ensures ok ==> Queued() == old(Queued()) + StampedAll(ps) && taken == Refs(StampedAll(ps))
    {
      taken := [];
      ghost var all, before := StampedAll(ps), Queued();
      for i := 0 to |ps|
        invariant Valid() && Queued() == before + all[..i] && taken == Refs(all[..i])
      {
        var t: seq<Action>;
        ok, t := AddEvent(ps[i]);
        if !ok {
          return false, taken;
        }
        taken := taken + t;
        assert all[..i + 1][..i] == all[..i];
      }
      assert all[..|ps|] == all;
      ok := true;
    }
  }

  /** The first loop of __np_event_runtime_start_with_event: the events run in the order
      they were queued, those they add included. */
  method Drain<W>(h: Handler<W>, w0: W, ghost first: Event, run: Runtime)
      returns (done: bool, posts: seq<seq<Event>>, worlds: seq<W>, log: seq<Action>)
    requires run.Valid() && run.Queued() == [first]
    modifies run, run.events
    ensures run.Valid()
    ensures IsHistory(h, w0, first, History(posts, worlds))
    ensures done ==> |posts| == |Queue(first, posts)| && run.Queued() == Queue(first, posts)
    ensures done ==> log == Drained(first, posts)
    ensures !done ==> |Queue(first, posts)| > MAX_EVENTS
  {
    hide Queue, Drained, Ran, Refs;
    posts, worlds, log := [], [w0], RefOf(run.events[0]);
    NothingRanYet(first);
    var idx: uint8 := 0;
    while idx < run.size
      invariant run.Valid() && run.Queued() == Queue(first, posts) && idx == |posts| <= |run.Queued()|
      invariant IsHistory(h, w0, first, History(posts, worlds))
      invariant log == Drained(first, posts)
      decreases MAX_EVENTS - idx
    {
      var event := run.events[idx];
      assert event == run.Queued()[idx];
      var (w, posted) := h(worlds[idx], event);
      HistoryGrows(h, w0, first, History(posts, worlds), posted);
      DrainedGrows(first, posts, StampedAll(posted));
      posts, worlds := posts + [StampedAll(posted)], worlds + [w];
      var ok, taken := run.AddAll(posted);
      if !ok {
        return false, posts, worlds, log;
      }
      log := log + [Exec(event)] + taken;
      idx := idx + 1;
    }
    done := true;
  }

  /** The second loop: every object is released once per event, after the last event ran. */
  method Release(run: Runtime) returns (log: seq<Action>)
    requires run.Valid()
    ensures log == Unrefs(run.Queued())
  {
    ghost var q := run.Queued();
    log := [];
    var idx: uint8 := 0;
    while idx < run.size
      invariant idx <= |q| && log == Unrefs(q[..idx])
    {
      var event := run.events[idx];
      assert event == q[idx] && q[..idx + 1][..idx] == q[..idx];
      if event.userData.Some? {
        log := log + [Unref(event.userData.value)];
      }
      idx := idx + 1;
    }
    assert q[..|q|] == q;
  }

  /** __np_event_runtime_start_with_event. `done` is false when an event found the chain
      full, which happens exactly when the handler would queue more than 255 events. */
  method StartWithEvent<W>(h: Handler<W>, w0: W, p: Post)
      returns (done: bool, posts: seq<seq<Event>>, worlds: seq<W>, log: seq<Action>)
    ensures done ==>
              && IsComplete(h, w0, Stamped(p), History(posts, worlds))
              && |Queue(Stamped(p), posts)| <= MAX_EVENTS
              && log == ChainLog(Stamped(p), posts)
              && Executed(log) == Queue(Stamped(p), posts)
              && Addressed(p, Executed(log)[0])
    ensures !done ==>
              forall full | IsComplete(h, w0, Stamped(p), full) :: |Queue(Stamped(p), full.posts)| > MAX_EVENTS
  {
    hide Queue, Drained, Ran, Unrefs, Executed;
    var first := Stamped(p);
    var run := new Runtime();
    var ok, taken := run.AddEvent(p);
    done, posts, worlds, log := Drain(h, w0, first, run);
    if !done {
      forall full | IsComplete(h, w0, first, full) ensures |Queue(first, full.posts)| > MAX_EVENTS {
        CompleteIsLongest(h, w0, first, History(posts, worlds), full);
      }
      return;
    }
    HistoryIsCausal(h, w0, first, History(posts, worlds));
    ChainRuns(first, posts);
    FirstIsQueued(first, posts);
    var released := Release(run);
    log := log + released;
  }

  lemma FirstIsQueued(first: Event, posts: seq<seq<Event>>)
    ensures |Queue(first, posts)| > 0 && Queue(first, posts)[0] == first
  {
  }

  lemma NothingRanYet(first: Event)
    ensures Queue(first, []) == [first] && Drained(first, []) == RefOf(first)
  {
  }

  lemma DrainedGrows(first: Event, posts: seq<seq<Event>>, more: seq<Event>)
    requires |posts| < |Queue(first, posts)|
    ensures Drained(first, posts + [more]) == Drained(first, posts) + [Exec(Queue(first, posts)[|posts|])] + Refs(more)
  {
    hide Queue, Refs;
    assert (posts + [more])[..|posts|] == posts;
  }

  /** A complete chain runs exactly the events that were ever queued, once each, in order. */
  lemma ChainRuns(first: Event, posts: seq<seq<Event>>)
    requires Causal(first, posts) && |posts| == |Queue(first, posts)|
    ensures Executed(ChainLog(first, posts)) == Queue(first, posts)
  {
    hide Queue, Drained, Unrefs;
    var q := Queue(first, posts);
    DrainedRuns(first, posts);
    assert q[..|q|] == q;
    UnrefsAreUnrefs(q);
    NothingExecuted(Unrefs(q));
    ExecutedConcat(Drained(first, posts), Unrefs(q));
  }

  lemma HistoryGrows<W>(h: Handler<W>, w0: W, first: Event, p: History<W>, posted: seq<Post>)
    requires IsHistory(h, w0, first, p) && |p.posts| < |Queue(first, p.posts)|
    requires posted == h(p.worlds[|p.posts|], Queue(first, p.posts)[|p.posts|]).1
    ensures var n := |p.posts|;
            var w' := h(p.worlds[n], Queue(first, p.posts)[n]).0;
            IsHistory(h, w0, first, History(p.posts + [StampedAll(posted)], p.worlds + [w']))
    ensures Queue(first, p.posts + [StampedAll(posted)]) == Queue(first, p.posts) + StampedAll(posted)
  {
    hide Queue;
    var n := |p.posts|;
    var w' := h(p.worlds[n], Queue(first, p.posts)[n]).0;
    var q := History(p.posts + [StampedAll(posted)], p.worlds + [w']);
    forall i | 0 <= i < |q.posts| ensures Ran(h, first, q, i) {
      assert i < n ==> Ran(h, first, p, i);
      assert q.posts[..i] == p.posts[..i];
      assert p.posts[..n] == p.posts;
    }
    QueueGrows(first, p.posts, StampedAll(posted));
  }

  lemma QueueGrows(first: Event, posts: seq<seq<Event>>, more: seq<Event>)
    ensures Queue(first, posts + [more]) == Queue(first, posts) + more
  {
    assert (posts + [more])[..|posts|] == posts;
  }

  lemma HistoryIsCausal<W>(h: Handler<W>, w0: W, first: Event, p: History<W>)
    requires IsHistory(h, w0, first, p)
    ensures Causal(first, p.posts)
  {
    forall i | 0 <= i < |p.posts| ensures i < |Queue(first, p.posts[..i])| {
      assert Ran(h, first, p, i);
    }
  }
}
