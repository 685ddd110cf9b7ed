/** The bootstrap list of src/np_bootstrap.c: connection strings in key order, each bound to
    a confirmed key or to none, with one reference per bound key; and the pings it sends. */
module Bootstrap {
  import opened Bytes
  import opened EventChain

  type Conn = seq<byte>
  type NodeKey = nat

  datatype Point = Point(conn: Conn, key: Option<NodeKey>)

  /** The tree in its iteration order, and the references with reason ref_bootstrap_list. */
  datatype Points = Points(list: seq<Point>, refs: multiset<NodeKey>)

  // ------------------------------------------------------ the ordered tree

  /** The byte-wise order of strings. */
  predicate Less(a: Conn, b: Conn) {
    if b == [] then false
    else if a == [] then true
    else a[0] < b[0] || (a[0] == b[0] && Less(a[1..], b[1..]))
  }

  predicate Sorted(list: seq<Point>) {
    forall i, j | 0 <= i < j < |list| :: Less(list[i].conn, list[j].conn)
  }

  lemma {:induction false} LessIsIrreflexive(a: Conn)
    ensures !Less(a, a)
  {
    if a != [] { LessIsIrreflexive(a[1..]); }
  }

  lemma {:induction false} LessIsTransitive(a: Conn, b: Conn, c: Conn)
    requires Less(a, b) && Less(b, c)
    ensures Less(a, c)
  {
    if a != [] && a[0] == b[0] && b[0] == c[0] { LessIsTransitive(a[1..], b[1..], c[1..]); }
  }

  lemma {:induction false} LessIsTotal(a: Conn, b: Conn)
    requires a != b
    ensures Less(a, b) || Less(b, a)
  {
    if a != [] && b != [] && a[0] == b[0] {
      assert a == [a[0]] + a[1..] && b == [b[0]] + b[1..];
      LessIsTotal(a[1..], b[1..]);
    }
  }

  /** What the order means: at the first difference the smaller byte goes first, and a string
      goes before its continuations. */
  lemma {:induction false} LessMeans(p: Conn, x: byte, a: Conn, y: byte, b: Conn)
    requires x < y
    ensures Less(p + [x] + a, p + [y] + b) && Less(p, p + [x] + a)
  {
    if p == [] {
      assert p + [x] + a == [x] + a && p + [y] + b == [y] + b;
    } else {
      LessMeans(p[1..], x, a, y, b);
      assert (p + [x] + a)[1..] == p[1..] + [x] + a && (p + [y] + b)[1..] == p[1..] + [y] + b;
    }
  }

  /** Where a string is, or where it would go. */
  function Place(list: seq<Point>, conn: Conn): (i: nat)
    ensures i <= |list|
    ensures forall j | 0 <= j < i :: Less(list[j].conn, conn)
    ensures i < |list| ==> !Less(list[i].conn, conn)
  {
    if list == [] || !Less(list[0].conn, conn) then 0 else 1 + Place(list[1..], conn)
  }

  predicate Present(list: seq<Point>, conn: Conn) {
    Place(list, conn) < |list| && list[Place(list, conn)].conn == conn
  }

  // -------------------------------------------------------- what steps do

  datatype Op =
    | Add(conn: Conn)
    | Confirm(key: NodeKey, exact: Conn, wildcard: Conn)
    | Remove(conn: Conn)

  /** np_unref_obj: releasing NULL does nothing. */
  function Released(refs: multiset<NodeKey>, key: Option<NodeKey>): multiset<NodeKey> {
    if key.Some? then refs - multiset{key.value} else refs
  }

  /** __np_bootstrap_confirm on a string that is there. */
  function Rebind(s: Points, conn: Conn, key: NodeKey): Points
    requires Present(s.list, conn)
  {
    var i := Place(s.list, conn);
    var replaced := s.list[i].key;
    if replaced == Some(key) then s
    else Points(s.list[i := Point(conn, Some(key))], Released(s.refs + multiset{key}, replaced))
  }

  function Step(s: Points, op: Op): Points {
    match op
    case Add(conn) =>
      var i := Place(s.list, conn);
      if Present(s.list, conn) then s else s.(list := s.list[..i] + [Point(conn, None)] + s.list[i..])
    case Confirm(key, exact, wildcard) =>
      if Present(s.list, exact) then Rebind(s, exact, key)
      else if Present(s.list, wildcard) then Rebind(s, wildcard, key)
      else s
    case Remove(conn) =>
      var i := Place(s.list, conn);
      if Present(s.list, conn) then Points(s.list[..i] + s.list[i + 1..], Released(s.refs, s.list[i].key)) else s
  }

  function Run(s: Points, ops: seq<Op>): Points
    decreases |ops|
  {
    if ops == [] then s else Run(Step(s, ops[0]), ops[1..])
  }

  // ------------------------------------------------------------ invariant

  /** The keys bound in the list, with multiplicity. */
  function Bound(list: seq<Point>): multiset<NodeKey> {
    if list == [] then multiset{}
    else Bound(list[..|list| - 1]) + BoundOf(list[|list| - 1])
  }

  function BoundOf(p: Point): multiset<NodeKey> {
    if p.key.Some? then multiset{p.key.value} else multiset{}
  }

  ghost predicate Consistent(s: Points) {
    Sorted(s.list) && s.refs == Bound(s.list)
  }

  /** The points bound to a key, as positions in the list. */
  ghost function BoundTo(list: seq<Point>, key: NodeKey): set<int> {
    set i | 0 <= i < |list| && list[i].key == Some(key)
  }

  lemma BoundToLast(list: seq<Point>, key: NodeKey)
    requires list != []
    ensures var n := |list| - 1;
            BoundTo(list, key) == BoundTo(list[..n], key) + (if list[n].key == Some(key) then {n} else {})
  {
  }

  lemma {:induction false} BoundCounts(list: seq<Point>, key: NodeKey)
    ensures Bound(list)[key] == |BoundTo(list, key)|
  {
    if list == [] {
      assert BoundTo(list, key) == {};
    } else {
      hide BoundTo;
      var n := |list| - 1;
      BoundCounts(list[..n], key);
      BoundToLast(list, key);
      NotInFront(list, n, key);
    }
  }

  lemma NotInFront(list: seq<Point>, n: nat, key: NodeKey)
    requires n <= |list|
    ensures n !in BoundTo(list[..n], key)
  {
  }

  lemma {:induction false} BoundConcat(a: seq<Point>, b: seq<Point>)
    ensures Bound(a + b) == Bound(a) + Bound(b)
  {
    if b == [] {
      assert a + b == a;
    } else {
      var n := |b| - 1;
      assert (a + b)[..|a + b| - 1] == a + b[..n];
      BoundConcat(a, b[..n]);
    }
  }

  lemma BoundWith(pre: seq<Point>, p: Point, post: seq<Point>)
    ensures Bound(pre + [p] + post) == Bound(pre) + BoundOf(p) + Bound(post)
  {
    hide Bound;
    BoundConcat(pre + [p], post);
    BoundConcat(pre, [p]);
    BoundOne(p);
  }

  lemma BoundOne(p: Point)
    ensures Bound([p]) == BoundOf(p)
  {
    assert [p][..0] == [];
  }

  lemma BoundAround(list: seq<Point>, i: nat)
    requires i < |list|
    ensures Bound(list) == Bound(list[..i]) + BoundOf(list[i]) + Bound(list[i + 1..])
  {
    hide Bound;
    assert list == list[..i] + [list[i]] + list[i + 1..];
    BoundWith(list[..i], list[i], list[i + 1..]);
  }

  lemma InsertKeepsSorted(list: seq<Point>, p: Point)
    requires Sorted(list) && !Present(list, p.conn)
    ensures var i := Place(list, p.conn); Sorted(list[..i] + [p] + list[i..])
  {
    var i := Place(list, p.conn);
    forall j | i <= j < |list| ensures Less(p.conn, list[j].conn) {
      LessIsTotal(p.conn, list[i].conn);
      if i < j { LessIsTransitive(p.conn, list[i].conn, list[j].conn); }
    }
  }

  lemma RebindKeeps(s: Points, conn: Conn, key: NodeKey)
    requires Consistent(s) && Present(s.list, conn)
    ensures Consistent(Rebind(s, conn, key))
  {
    hide Bound, Less;
    var i := Place(s.list, conn);
    BoundAround(s.list, i);
    var after := s.list[i := Point(conn, Some(key))];
    BoundAround(after, i);
    assert after[..i] == s.list[..i] && after[i + 1..] == s.list[i + 1..];
  }

  lemma AddKeeps(s: Points, conn: Conn)
    requires Consistent(s) && !Present(s.list, conn)
    ensures Consistent(Step(s, Add(conn)))
  {
    hide Less, Bound;
    var i := Place(s.list, conn);
    InsertKeepsSorted(s.list, Point(conn, None));
    BoundWith(s.list[..i], Point(conn, None), s.list[i..]);
    BoundConcat(s.list[..i], s.list[i..]);
    assert s.list[..i] + s.list[i..] == s.list;
  }

  lemma RemoveKeeps(s: Points, conn: Conn)
    requires Consistent(s) && Present(s.list, conn)
    ensures Consistent(Step(s, Remove(conn)))
  {
    hide Less, Bound;
    var i := Place(s.list, conn);
    BoundAround(s.list, i);
    BoundConcat(s.list[..i], s.list[i + 1..]);
  }

  /** Every operation keeps the points in key order and one reference per bound point. */
  lemma StepKeeps(s: Points, op: Op)
    requires Consistent(s)
    ensures Consistent(Step(s, op))
  {
    hide Less, Bound, Consistent, Rebind, Place;
    match op {
      case Add(conn) =>
        if !Present(s.list, conn) {
          AddKeeps(s, conn);
        }
      case Confirm(key, exact, wildcard) =>
        if Present(s.list, exact) {
          RebindKeeps(s, exact, key);
        } else if Present(s.list, wildcard) {
          RebindKeeps(s, wildcard, key);
        }
      case Remove(conn) =>
        if Present(s.list, conn) {
          RemoveKeeps(s, conn);
        }
    }
  }

  /** After any sequence of operations on an empty list, the list holds as many references
      on a key as there are points bound to it. */
  lemma {:induction false} ReferencesMatchPoints(s: Points, ops: seq<Op>, key: NodeKey)
    requires Consistent(s)
    ensures Consistent(Run(s, ops)) && Run(s, ops).refs[key] == |BoundTo(Run(s, ops).list, key)|
    decreases |ops|
  {
    hide Step, Bound, Sorted;
    if ops == [] {
      BoundCounts(s.list, key);
    } else {
      StepKeeps(s, ops[0]);
      ReferencesMatchPoints(Step(s, ops[0]), ops[1..], key);
    }
  }

  // -------------------------------------------------------- the map view

  /** The key a string is bound to: None when the string is unknown. */
  function Binding(list: seq<Point>, conn: Conn): Option<Option<NodeKey>> {
    if Present(list, conn) then Some(list[Place(list, conn)].key) else None
  }

  lemma FoundInOrder(list: seq<Point>, i: nat)
    requires Sorted(list) && i < |list|
    ensures Present(list, list[i].conn) && Place(list, list[i].conn) == i
  {
    var j := Place(list, list[i].conn);
    LessIsIrreflexive(list[i].conn);
  }

  lemma SameBinding(a: seq<Point>, b: seq<Point>, conn: Conn)
    requires Sorted(a) && Sorted(b)
    requires forall p: Point | p.conn == conn :: p in a <==> p in b
    ensures Binding(a, conn) == Binding(b, conn)
  {
    hide Less;
    if Present(a, conn) {
      var p := a[Place(a, conn)];
      assert p in b;
      var j :| 0 <= j < |b| && b[j] == p;
      FoundInOrder(b, j);
    } else if Present(b, conn) {
      var p := b[Place(b, conn)];
      assert p in a;
      var j :| 0 <= j < |a| && a[j] == p;
      FoundInOrder(a, j);
    }
  }

  /** Adding leaves an existing string alone, removing forgets its string, and confirming
      binds the exact string if it is known, otherwise the wildcard, and nothing else. */
  lemma StepBinding(s: Points, op: Op, conn: Conn)
    requires Consistent(s)
    ensures Binding(Step(s, op).list, conn)
         == match op {
              case Add(c) => if conn == c && Binding(s.list, c).None? then Some(None) else Binding(s.list, conn)
              case Remove(c) => if conn == c then None else Binding(s.list, conn)
              case Confirm(key, exact, wildcard) =>
                if Binding(s.list, exact).Some? then (if conn == exact then Some(Some(key)) else Binding(s.list, conn))
                else if conn == wildcard && Binding(s.list, wildcard).Some? then Some(Some(key))
                else Binding(s.list, conn)
            }
  {
    hide Less, Bound;
    StepKeeps(s, op);
    var after := Step(s, op).list;
    match op {
      case Add(c) =>
        if !Present(s.list, c) {
          var i := Place(s.list, c);
          assert after[i].conn == c;
          FoundInOrder(after, i);
          if conn != c { SameBinding(s.list, after, conn); }
        }
      case Remove(c) =>
        if Present(s.list, c) {
          var i := Place(s.list, c);
          RemovedIsGone(s.list, i);
          if conn != c { SameBinding(s.list, after, conn); }
        }
      case Confirm(key, exact, wildcard) =>
        if Present(s.list, exact) {
          RebindBinding(s, exact, key, conn);
        } else if Present(s.list, wildcard) {
          RebindBinding(s, wildcard, key, conn);
        }
    }
  }

  lemma RemovedIsGone(list: seq<Point>, i: nat)
    requires Sorted(list) && i < |list|
    ensures !Present(list[..i] + list[i + 1..], list[i].conn)
  {
    var after, c := list[..i] + list[i + 1..], list[i].conn;
    LessIsIrreflexive(c);
    if Present(after, c) {
      assert false;
    }
  }

  lemma RebindBinding(s: Points, c: Conn, key: NodeKey, conn: Conn)
    requires Consistent(s) && Present(s.list, c)
    ensures Binding(Rebind(s, c, key).list, conn) == if conn == c then Some(Some(key)) else Binding(s.list, conn)
  {
    hide Less, Bound;
    RebindKeeps(s, c, key);
    var i, after := Place(s.list, c), Rebind(s, c, key).list;
    FoundInOrder(s.list, i);
    FoundInOrder(after, i);
    if conn != c {
      forall p: Point | p.conn == conn ensures p in s.list <==> p in after {
        UpdateMembers(s.list, i, after[i], p);
      }
      SameBinding(s.list, after, conn);
    }
  }

  lemma UpdateMembers(list: seq<Point>, i: nat, q: Point, p: Point)
    requires i < |list| && p != list[i] && p != q
    ensures p in list <==> p in list[i := q]
  {
    if p in list {
      var j :| 0 <= j < |list| && list[j] == p;
      assert list[i := q][j] == p;
    }
  }

  /** Confirming the same key again changes nothing, not even for a moment a reference. */
  lemma ConfirmTwiceIsOnce(s: Points, key: NodeKey, exact: Conn, wildcard: Conn)
    requires Consistent(s)
    ensures var once := Step(s, Confirm(key, exact, wildcard));
            Step(once, Confirm(key, exact, wildcard)) == once
  {
    hide Less, Bound, Sorted;
    var op := Confirm(key, exact, wildcard);
    StepBinding(s, op, exact);
    StepBinding(s, op, wildcard);
  }

  // --------------------------------------------------- the module's object

  class BootstrapList {
    var list: seq<Point>
    var refs: multiset<NodeKey>

    function State(): Points
      reads this
    {
      Points(list, refs)
    }

    /** _np_bootstrap_init */
    constructor ()
      ensures State() == Points([], multiset{}) && Consistent(State())
    {
      list, refs := [], multiset{};
    }

    /** np_bootstrap_add */
    method Add(conn: Conn)
      requires Consistent(State())
      modifies this
      ensures State() == Step(old(State()), Op.Add(conn)) && Consistent(State())
    {
      StepKeeps(State(), Op.Add(conn));
      var i := Place(list, conn);
      if !Present(list, conn) {
        list := list[..i] + [Point(conn, None)] + list[i..];
      }
    }

    /** __np_bootstrap_confirm: reference the new key before releasing the replaced one. */
    method Bind(key: NodeKey, conn: Conn)
      requires Present(list, conn)
      modifies this
      ensures State() == Rebind(old(State()), conn, key)
    {
      var i := Place(list, conn);
      var replaced := list[i].key;
      if replaced != Some(key) {
        refs := refs + multiset{key};
        list := list[i := Point(conn, Some(key))];
        if replaced.Some? {
          refs := refs - multiset{replaced.value};
        }
      }
    }

    /** _np_bootstrap_confirm: the exact connection string, else the wildcard one. */
    method Confirm(key: NodeKey, exact: Conn, wildcard: Conn)
      requires Consistent(State())
      modifies this
      ensures State() == Step(old(State()), Op.Confirm(key, exact, wildcard)) && Consistent(State())
    {
      StepKeeps(State(), Op.Confirm(key, exact, wildcard));
      if Present(list, exact) {
        Bind(key, exact);
      } else if Present(list, wildcard) {
        Bind(key, wildcard);
      }
    }

    /** np_bootstrap_remove */
    method Remove(conn: Conn)
      requires Consistent(State())
      modifies this
      ensures State() == Step(old(State()), Op.Remove(conn)) && Consistent(State())
    {
      StepKeeps(State(), Op.Remove(conn));
      var i := Place(list, conn);
      if Present(list, conn) {
        if list[i].key.Some? {
          refs := refs - multiset{list[i].key.value};
        }
        list := list[..i] + list[i + 1..];
      }
    }

    /** __np_bootstrap_reconnect inside a running chain. `message` is the first of the
        unused message ids. False when the chain is full. */
    method Reconnect(net: Network, run: Runtime, message: Object) returns (ok: bool, log: seq<Action>)
      requires run.Valid()
      modifies run, run.events
      ensures run.Valid()
      ensures ok == (|old(run.Queued())| + |Pings(net, list, message)| <= MAX_EVENTS)
      ensures ok ==> run.Queued() == old(run.Queued()) + StampedAll(Pings(net, list, message))
      ensures ok ==> log == PassLog(net, list, message)
    {
      hide Pings, PassLog, StampedAll;
      log := [];
      var next := message;
      ghost var before := run.Queued();
      NoPings(net, message);
      for i := 0 to |list|
        invariant run.Valid()
        invariant next == message + |Pings(net, list[..i], message)|
        invariant run.Queued() == before + StampedAll(Pings(net, list[..i], message))
        invariant log == PassLog(net, list[..i], message)
      {
        PingsNext(net, list, i, message);
        if list[i].key.Some? {
          var post := PingFor(net, list[i].key.value, next);
          var taken: seq<Action>;
          ok, taken := run.AddEvent(post);
          if !ok {
            PingsGrow(net, list, i + 1, message);
            return false, log;
          }
          log := log + ([Ref(next)] + taken + [Unref(next)]);
          next := next + 1;
        }
      }
      assert list[..|list|] == list;
      ok := true;
    }

    /** __np_bootstrap_reconnect as the periodic job runs it, without a chain: every ping
        starts one of its own. False when a ping's chain would queue more than 255 events. */
    method ReconnectAlone<W(!new)>(h: Handler<W>, w0: W, net: Network, message: Object)
        returns (ok: bool, runs: seq<ChainRun<W>>, log: seq<Action>)
      ensures ChainsRan(h, w0, Pings(net, list, message), runs)
      ensures ok == (|runs| == |Pings(net, list, message)|)
      ensures ok ==> log == AloneLog(Pings(net, list, message), runs)
      ensures !ok ==> ChainOverflows(h, WorldAfter(w0, runs), Pings(net, list, message)[|runs|])
    {
      hide Pings, ChainRan, AloneLog, ChainLog, Queue, IsComplete, ChainOverflows;
      runs, log := [], [];
      var next, w := message, w0;
      NoPings(net, message);
      NothingRan(h, w0);
      for i := 0 to |list|
        invariant next == message + |Pings(net, list[..i], message)| && |runs| == |Pings(net, list[..i], message)|
        invariant ChainsRan(h, w0, Pings(net, list[..i], message), runs) && w == WorldAfter(w0, runs)
        invariant log == AloneLog(Pings(net, list[..i], message), runs)
      {
        PingsNext(net, list, i, message);
        if list[i].key.Some? {
          ghost var before := Pings(net, list[..i], message);
          var post := PingFor(net, list[i].key.value, next);
          var done, posts, worlds, chain := StartWithEvent(h, w, post);
          PingsGrow(net, list, i + 1, message);
          if !done {
            Overflowed(h, w, post);
            RanSoFar(h, w0, before + [post], Pings(net, list, message), runs);
            return false, runs, log;
          }
          HistoryEnds(h, w, post, posts, worlds);
          var run := ChainRun(w, History(posts, worlds), worlds[|posts|]);
          OneMoreChain(h, w0, before, runs, post, run);
          runs, w := runs + [run], run.after;
          log := log + ([Ref(next)] + chain + [Unref(next)]);
          next := next + 1;
        }
      }
      assert list[..|list|] == list;
      ok := true;
    }
  }

  // --------------------------------------------------- chains one by one

  /** A chain from start to end, and the worlds before and after it. */
  datatype ChainRun<W> = ChainRun(before: W, history: History<W>, after: W)

  function WorldAfter<W>(w0: W, runs: seq<ChainRun<W>>): W {
    if runs == [] then w0 else runs[|runs| - 1].after
  }

  /** The chain of this post ran to its complete history of at most 255 events. */
  ghost predicate ChainRan<W>(h: Handler<W>, w: W, p: Post, r: ChainRun<W>) {
    && r.before == w && IsComplete(h, w, Stamped(p), r.history)
    && r.after == r.history.worlds[|r.history.posts|]
    && |Queue(Stamped(p), r.history.posts)| <= MAX_EVENTS
  }

  /** The chains of the first posts ran one after the other, each in the world the one
      before it left. */
  ghost predicate ChainsRan<W>(h: Handler<W>, w0: W, posts: seq<Post>, runs: seq<ChainRun<W>>) {
    |runs| <= |posts| && forall i | 0 <= i < |runs| :: ChainRan(h, WorldAfter(w0, runs[..i]), posts[i], runs[i])
  }

  ghost predicate ChainOverflows<W(!new)>(h: Handler<W>, w: W, p: Post) {
    forall full | IsComplete(h, w, Stamped(p), full) :: |Queue(Stamped(p), full.posts)| > MAX_EVENTS
  }

  /** Create a message, run its chain, drop the creation reference. */
  function AloneLog<W>(posts: seq<Post>, runs: seq<ChainRun<W>>): seq<Action>
    requires |runs| <= |posts|
  {
    if runs == [] then []
    else
      var n := |runs| - 1;
      var e := Stamped(posts[n]);
      AloneLog(posts, runs[..n]) + (RefOf(e) + ChainLog(e, runs[n].history.posts) + UnrefOf(e))
  }

  lemma NothingRan<W>(h: Handler<W>, w0: W)
    ensures ChainsRan(h, w0, [], []) && AloneLog<W>([], []) == [] && WorldAfter(w0, []) == w0
  {
  }

  lemma Overflowed<W(!new)>(h: Handler<W>, w: W, p: Post)
    requires forall full | IsComplete(h, w, Stamped(p), full) :: |Queue(Stamped(p), full.posts)| > MAX_EVENTS
    ensures ChainOverflows(h, w, p)
  {
  }

  lemma HistoryEnds<W>(h: Handler<W>, w: W, p: Post, posts: seq<seq<Event>>, worlds: seq<W>)
    requires IsComplete(h, w, Stamped(p), History(posts, worlds)) && |Queue(Stamped(p), posts)| <= MAX_EVENTS
    ensures |worlds| == |posts| + 1
    ensures ChainRan(h, w, p, ChainRun(w, History(posts, worlds), worlds[|posts|]))
  {
    hide Queue;
  }

  lemma RanSoFar<W>(h: Handler<W>, w0: W, posts: seq<Post>, all: seq<Post>, runs: seq<ChainRun<W>>)
    requires posts <= all && |runs| < |posts| && ChainsRan(h, w0, posts[..|runs|], runs)
    ensures ChainsRan(h, w0, all, runs) && all[|runs|] == posts[|runs|]
  {
    hide ChainRan, WorldAfter;
  }

  lemma {:induction false} SameAloneLog<W>(a: seq<Post>, b: seq<Post>, runs: seq<ChainRun<W>>)
    requires |runs| <= |a| && a <= b
    ensures AloneLog(a, runs) == AloneLog(b, runs)
  {
    hide ChainLog;
    if runs != [] {
      SameAloneLog(a, b, runs[..|runs| - 1]);
    }
  }

  lemma OneMoreChain<W>(h: Handler<W>, w0: W, posts: seq<Post>, runs: seq<ChainRun<W>>, p: Post, r: ChainRun<W>)
    requires ChainsRan(h, w0, posts, runs) && |runs| == |posts| && ChainRan(h, WorldAfter(w0, runs), p, r)
    ensures ChainsRan(h, w0, posts + [p], runs + [r]) && WorldAfter(w0, runs + [r]) == r.after
    ensures AloneLog(posts + [p], runs + [r])
         == AloneLog(posts, runs) + (RefOf(Stamped(p)) + ChainLog(Stamped(p), r.history.posts) + UnrefOf(Stamped(p)))
  {
    hide ChainRan, ChainLog, RefOf, UnrefOf;
    var runs' := runs + [r];
    assert runs'[..|runs|] == runs;
    forall i | 0 <= i < |runs'| ensures ChainRan(h, WorldAfter(w0, runs'[..i]), (posts + [p])[i], runs'[i]) {
      if i < |runs| {
        assert runs'[..i] == runs[..i];
        assert ChainRan(h, WorldAfter(w0, runs[..i]), posts[i], runs[i]);
      }
    }
    SameAloneLog(posts, posts + [p], runs);
  }

  /** A pass whose pings start chains of their own gives back every reference too, those of
      creation and those of all the chains, whatever the handlers do. */
  lemma {:induction false} ChainsAloneBalance<W>(
      h: Handler<W>, w0: W, posts: seq<Post>, runs: seq<ChainRun<W>>, o: Object)
    requires ChainsRan(h, w0, posts, runs)
    ensures Balance(AloneLog(posts, runs), o) == 0
  {
    hide ChainLog, IsHistory, Queue;
    if runs != [] {
      var n := |runs| - 1;
      var front, e, r := runs[..n], Stamped(posts[n]), runs[n];
      forall i | 0 <= i < n ensures ChainRan(h, WorldAfter(w0, front[..i]), posts[i], front[i]) {
        assert front[..i] == runs[..i];
        assert ChainRan(h, WorldAfter(w0, runs[..i]), posts[i], runs[i]);
      }
      ChainsAloneBalance(h, w0, posts, front, o);
      assert ChainRan(h, WorldAfter(w0, runs[..n]), posts[n], r);
      HistoryIsCausal(h, r.before, e, r.history);
      ChainBalances(e, r.history.posts, o);
      Enclosed(e, ChainLog(e, r.history.posts), o);
    }
  }

  /** The message of a ping that starts a chain of its own is held until after the chain. */
  lemma MessageOutlivesItsChain(e: Event, posts: seq<seq<Event>>, m: Object, k: nat)
    requires Causal(e, posts) && e.userData == Some(m) && 0 < k <= |RefOf(e) + ChainLog(e, posts)|
    ensures Balance((RefOf(e) + ChainLog(e, posts) + UnrefOf(e))[..k], m) >= 1
  {
    hide ChainLog;
    var log := ChainLog(e, posts);
    assert (RefOf(e) + log + UnrefOf(e))[..k] == [Ref(m)] + log[..k - 1];
    NeverOverdrawn(e, posts, k - 1, m);
  }

  lemma Enclosed(e: Event, log: seq<Action>, o: Object)
    ensures Balance(RefOf(e) + log + UnrefOf(e), o) == Balance(log, o)
  {
  }

  // --------------------------------------------------------------- pings

  /** Addresses the pass reads from elsewhere: each key's own, and the outbound ping subject's. */
  datatype Network = Network(dhkey: NodeKey -> Dhkey, pingOut: Dhkey, pingKind: nat)

  function PingFor(net: Network, key: NodeKey, message: Object): Post {
    Post(net.pingOut, Event(net.pingKind, net.dhkey(key), Some(message), []))
  }

  /** One ping per confirmed point, in key order, each with a message of its own. */
  function Pings(net: Network, list: seq<Point>, message: Object): seq<Post> {
    if list == [] then []
    else
      var n := |list| - 1;
      var before := Pings(net, list[..n], message);
      if list[n].key.Some? then before + [PingFor(net, list[n].key.value, message + |before|)] else before
  }

  /** What the pass itself does to references: create a message, let the chain reference
      it, drop the creation reference. */
  function PassLog(net: Network, list: seq<Point>, message: Object): seq<Action> {
    if list == [] then []
    else
      var n := |list| - 1;
      var before, m := PassLog(net, list[..n], message), message + |Pings(net, list[..n], message)|;
      if list[n].key.Some? then before + ([Ref(m)] + [Ref(m)] + [Unref(m)]) else before
  }

  lemma NoPings(net: Network, message: Object)
    ensures Pings(net, [], message) == [] && PassLog(net, [], message) == [] && StampedAll([]) == []
  {
  }

  lemma PingsNext(net: Network, list: seq<Point>, i: nat, message: Object)
    requires i < |list|
    ensures var before := Pings(net, list[..i], message);
            var m := message + |before|;
            if list[i].key.Some? then
              && Pings(net, list[..i + 1], message) == before + [PingFor(net, list[i].key.value, m)]
              && StampedAll(Pings(net, list[..i + 1], message))
                 == StampedAll(before) + [Stamped(PingFor(net, list[i].key.value, m))]
              && PassLog(net, list[..i + 1], message)
                 == PassLog(net, list[..i], message) + ([Ref(m)] + [Ref(m)] + [Unref(m)])
            else
              && Pings(net, list[..i + 1], message) == before
              && PassLog(net, list[..i + 1], message) == PassLog(net, list[..i], message)
  {
    assert list[..i + 1][..i] == list[..i];
  }

  lemma {:induction false} PingsGrow(net: Network, list: seq<Point>, i: nat, message: Object)
    requires i <= |list|
    ensures Pings(net, list[..i], message) <= Pings(net, list, message)
    decreases |list| - i
  {
    hide Pings;
    if i == |list| {
      assert list[..i] == list;
    } else {
      PingsNext(net, list, i, message);
      PingsGrow(net, list, i + 1, message);
    }
  }

  /** The confirmed keys in key order. */
  function Confirmed(list: seq<Point>): seq<NodeKey> {
    if list == [] then []
    else
      var n := |list| - 1;
      Confirmed(list[..n]) + (if list[n].key.Some? then [list[n].key.value] else [])
  }

  /** A key is pinged exactly as often as points are bound to it. */
  lemma {:induction false} ConfirmedAreBound(list: seq<Point>)
    ensures multiset(Confirmed(list)) == Bound(list)
  {
    if list != [] {
      ConfirmedAreBound(list[..|list| - 1]);
    }
  }

  /** Exactly the confirmed points are pinged, in key order: each ping is posted to the
      outbound ping subject, targets the point's node, and carries the next message. */
  lemma {:induction false} PingsAreTheConfirmed(net: Network, list: seq<Point>, message: Object)
    ensures var ps, ks := Pings(net, list, message), Confirmed(list);
            && |ps| == |ks|
            && forall i | 0 <= i < |ks| ::
                 && ps[i].dhkey == net.pingOut && ps[i].event.target == net.dhkey(ks[i])
                 && ps[i].event.kind == net.pingKind && ps[i].event.userData == Some(message + i)
  {
    if list != [] {
      PingsAreTheConfirmed(net, list[..|list| - 1], message);
    }
  }

  /** The pass leaves one reference on each of its messages, the chain's. */
  lemma {:induction false} PassLeavesTheChainsReference(net: Network, list: seq<Point>, message: Object, o: Object)
    ensures Balance(PassLog(net, list, message), o)
         == if message <= o < message + |Pings(net, list, message)| then 1 else 0
  {
    if list != [] {
      PassLeavesTheChainsReference(net, list[..|list| - 1], message, o);
    }
  }

  /** No release in the pass drops the last reference on its message. */
  lemma {:induction false} PassNeverDrops(net: Network, list: seq<Point>, message: Object, k: nat, o: Object)
    requires 0 < k <= |PassLog(net, list, message)| && PassLog(net, list, message)[k - 1] == Unref(o)
    ensures Balance(PassLog(net, list, message)[..k], o) >= 1
  {
    hide Pings;
    var n := |list| - 1;
    var before, m := PassLog(net, list[..n], message), message + |Pings(net, list[..n], message)|;
    if k <= |before| {
      PassNeverDrops(net, list[..n], message, k, o);
      assert PassLog(net, list, message)[..k] == before[..k];
    } else {
      PassLeavesTheChainsReference(net, list[..n], message, o);
      assert PassLog(net, list, message)[..k] == before + [Ref(m), Ref(m), Unref(m)];
    }
  }

  lemma {:induction false} PingsCarry(net: Network, list: seq<Point>, message: Object, o: Object)
    ensures Carrying(StampedAll(Pings(net, list, message)), o)
         == if message <= o < message + |Pings(net, list, message)| then 1 else 0
  {
    hide StampedAll;
    if list == [] {
      NoPings(net, message);
    } else {
      var n := |list| - 1;
      assert list[..n + 1] == list;
      PingsCarry(net, list[..n], message, o);
      PingsNext(net, list, n, message);
      if list[n].key.Some? {
        var m := message + |Pings(net, list[..n], message)|;
        var e := Stamped(PingFor(net, list[n].key.value, m));
        CarryingConcat(StampedAll(Pings(net, list[..n], message)), [e], o);
        assert [e][..0] == [];
      }
    }
  }

  // ----------------------------------------- a pass inside a whole chain

  lemma {:induction false} DrainedGoesOn(first: Event, posts: seq<seq<Event>>, k: nat)
    requires Causal(first, posts) && k <= |posts|
    ensures Drained(first, posts[..k]) <= Drained(first, posts)
    decreases |posts| - k
  {
    hide Queue;
    if k == |posts| {
      assert posts[..k] == posts;
    } else {
      var n := |posts| - 1;
      CausalFront(first, posts);
      DrainedGoesOn(first, posts[..n], k);
      assert posts[..n][..k] == posts[..k];
    }
  }

  lemma DrainedStep(first: Event, posts: seq<seq<Event>>, k: nat)
    requires Causal(first, posts) && k < |posts|
    ensures k < |Queue(first, posts[..k])|
    ensures Drained(first, posts[..k + 1])
         == Drained(first, posts[..k]) + [Exec(Queue(first, posts[..k])[k])] + Refs(posts[k])
  {
    hide Queue, Refs, Drained;
    assert posts[..k + 1] == posts[..k] + [posts[k]];
    DrainedGrows(first, posts[..k], posts[k]);
  }

  /** The log of a chain whose step k runs the pass: what the pass does to references, the
      creation references included, in the place of what the step would do by itself. */
  function PassInChain(first: Event, posts: seq<seq<Event>>, k: nat, pass: seq<Action>): seq<Action>
    requires k < |posts| && k < |Queue(first, posts[..k])|
  {
    var d, log := |Drained(first, posts[..k + 1])|, ChainLog(first, posts);
    Drained(first, posts[..k]) + [Exec(Queue(first, posts[..k])[k])] + pass
    + (if d <= |log| then log[d..] else [])
  }

  lemma BalanceReplaced(pre: seq<Action>, x: seq<Action>, y: seq<Action>, post: seq<Action>, o: Object)
    requires Balance(x, o) == Balance(y, o)
    ensures Balance(pre + x + post, o) == Balance(pre + y + post, o)
  {
  }

  /** A chain that runs a pass gives back every reference the pass and the chain took: after
      the release no reference, of creation or of the chain, is left on any object. */
  lemma PingsAreReleased(net: Network, list: seq<Point>, message: Object,
                         first: Event, posts: seq<seq<Event>>, k: nat, o: Object)
    requires Causal(first, posts) && k < |posts| && posts[k] == StampedAll(Pings(net, list, message))
    ensures k < |Queue(first, posts[..k])|
    ensures Balance(PassInChain(first, posts, k, PassLog(net, list, message)), o) == 0
  {
    hide Queue, Drained, Pings, PassLog, Refs, Balance, StampedAll;
    var pass, log := PassLog(net, list, message), ChainLog(first, posts);
    DrainedStep(first, posts, k);
    DrainedGoesOn(first, posts, k + 1);
    var d := Drained(first, posts[..k + 1]);
    var pre := Drained(first, posts[..k]) + [Exec(Queue(first, posts[..k])[k])];
    assert log == d + log[|d|..];
    PassLeavesTheChainsReference(net, list, message, o);
    PingsCarry(net, list, message, o);
    RefsBalance(posts[k], o);
    BalanceReplaced(pre, Refs(posts[k]), pass, log[|d|..], o);
    ChainBalances(first, posts, o);
  }
}
