/** What the datablock promises over whole runs: it is a map, merging overrides, and an
    overwrite leaves it intact exactly when its reserved room is right. */
module DatablockRuns {
  import opened Bytes
  import opened KvCodec
  import opened Layout
  import opened Datablock
  import opened FailedSets

  // --------------------------------------------------------- the map view

  function Keys(objs: seq<Obj>): set<Key> {
    set i | 0 <= i < |objs| :: objs[i].key
  }

  function AsMap(objs: seq<Obj>): map<Key, Value> {
    map k | k in Keys(objs) && Has(objs, k) :: objs[Find(objs, k)].value
  }

  lemma AsMapLookup(objs: seq<Obj>, key: Key)
    ensures Lookup(objs, key) == if key in AsMap(objs) then Some(AsMap(objs)[key]) else None
  {
    if Has(objs, key) {
      assert objs[Find(objs, key)].key in Keys(objs);
    }
  }

  lemma MapsEqual(a: seq<Obj>, m: map<Key, Value>)
    requires forall k :: Lookup(a, k) == if k in m then Some(m[k]) else None
    ensures AsMap(a) == m
  {
    forall k
      ensures k in AsMap(a) <==> k in m
      ensures k in m ==> AsMap(a)[k] == m[k]
    {
      AsMapLookup(a, k);
      assert Lookup(a, k) == if k in m then Some(m[k]) else None;
    }
  }

  lemma AsMapPut(objs: seq<Obj>, o: Obj)
    requires DistinctKeys(objs)
    ensures AsMap(Put(objs, o)) == AsMap(objs)[o.key := o.value]
  {
    forall k ensures Lookup(Put(objs, o), k)
                  == if k in AsMap(objs)[o.key := o.value] then Some(AsMap(objs)[o.key := o.value][k]) else None {
      LookupAfterPut(objs, o, k);
      AsMapLookup(objs, k);
    }
    MapsEqual(Put(objs, o), AsMap(objs)[o.key := o.value]);
  }

  // ---------------------------------------------------------- runs of sets

  /** What a caller can check before the call: the reserved room is right, or the block has
      no room anyway, or the reserved room is too small and the key is not there yet or what
      is there makes the attempt go unnoticed. */
  predicate Harmless(objs: seq<Obj>, total: nat, o: Obj) {
    || Slack(o) == 0
    || !Fits(objs, total, o)
    || (Slack(o) < 0 && (!Has(objs, o.key) || Unnoticed(objs, o)))
  }

  /** A call a caller can make on a well-formed block. */
  predicate CanSet(b: seq<byte>, o: Obj) {
    WellFormed(b) && Representable(o) && (|Contents(b)| < MAX_OBJECTS || Has(Contents(b), o.key))
  }

  predicate Step(b: seq<byte>, o: Obj, ret: Ret, b': seq<byte>) {
    CanSet(b, o) && Harmless(Contents(b), TotalOf(b), o) && SetEffect(b, o, ret, b')
  }

  /** A harmless set keeps the block well-formed and changes its contents only when it
      reports success. */
  lemma HarmlessSet(b: seq<byte>, o: Obj, ret: Ret, b': seq<byte>)
    requires Step(b, o, ret, b')
    ensures WellFormed(b') && TotalOf(b') == TotalOf(b)
    ensures ret == SetRet(Contents(b), TotalOf(b), o)
    ensures Contents(b') == if ret.Ok? then Put(Contents(b), o) else Contents(b)
  {
    hide ReadHeader, Parse, EncodeHeader, Used, Body, Placed, CalcSize, Fits, Slack, Offset, Kept, Unnoticed, Put;
    hide Representable;
    var objs, total := Contents(b), TotalOf(b);
    HeaderOf(b, total, objs);
    if ret.CouldNotWriteTotalLength? {
      var p := PlaceOf(objs, o.key);
      PlacedKeepsFront(b, p, CalcSize(o), Kept(o));
      if Has(objs, o.key) {
        UnnoticedIff(b, total, objs, o);
        FailedTotal(b, total, objs, o.key, b');
      } else {
        SameFront(b, b', total, objs);
        HoldsDetermines(b', total, objs);
      }
    } else {
      HoldsDetermines(b', total, if ret.Ok? then Put(objs, o) else objs);
    }
  }

  lemma FailedTotal(b: seq<byte>, total: nat, objs: seq<Obj>, key: Key, b': seq<byte>)
    requires Holds(b, total, objs) && |b'| == |b| && PlaceOf(objs, key).start <= |b|
    requires b'[..PlaceOf(objs, key).start] == b[..PlaceOf(objs, key).start]
    ensures |b| >= HEADER_SIZE && TotalOf(b') == total
  {
    hide ReadHeader, EncodeHeader, EncodeAll;
    AroundPlace(b, objs, key);
    SameSlices(b, b', HEADER_SIZE, PlaceOf(objs, key).start);
    SameHeader(b, b');
    HeaderOf(b, total, objs);
  }

  predicate IsRun(states: seq<seq<byte>>, calls: seq<Obj>, rets: seq<Ret>) {
    && |states| == |calls| + 1 == |rets| + 1
    && forall i | 0 <= i < |calls| :: Step(states[i], calls[i], rets[i], states[i + 1])
  }

  /** The value of the last successful set of a key. */
  function LastSet(calls: seq<Obj>, rets: seq<Ret>, key: Key): Option<Value>
    requires |calls| == |rets|
  {
    if calls == [] then None
    else
      var n := |calls| - 1;
      if rets[n].Ok? && calls[n].key == key then Some(calls[n].value)
      else LastSet(calls[..n], rets[..n], key)
  }

  /** The datablock refines a map: after any run of sets from an initialised block, every
      key reads as its last successful set, and a key never set is not found. */
  lemma {:induction false} RunRefinesMap(states: seq<seq<byte>>, calls: seq<Obj>, rets: seq<Ret>, total: nat, key: Key)
    requires IsRun(states, calls, rets) && Holds(states[0], total, [])
    ensures var last := states[|calls|];
            && WellFormed(last) && TotalOf(last) == total
            && Lookup(Contents(last), key) == LastSet(calls, rets, key)
  {
    hide Holds, ReadHeader, Parse, SetEffect, CalcSize, Harmless, Find;
    if calls == [] {
      HoldsDetermines(states[0], total, []);
      assert !Has([], key);
    } else {
      var n := |calls| - 1;
      RunRefinesMap(states[..n + 1], calls[..n], rets[..n], total, key);
      assert Step(states[n], calls[n], rets[n], states[n + 1]);
      HarmlessSet(states[n], calls[n], rets[n], states[n + 1]);
      DistinctContents(states[n]);
      LookupAfterPut(Contents(states[n]), calls[n], key);
    }
  }

  lemma DistinctContents(b: seq<byte>)
    requires WellFormed(b)
    ensures DistinctKeys(Contents(b)) && AllStorable(Contents(b))
  {
  }

  // ------------------------------------------------- when a set succeeds

  /** A set succeeds exactly when its object is one whose room is right and the contents
      with it fit the capacity; it reports lack of room by what it would have reserved. */
  lemma SetSucceedsIff(objs: seq<Obj>, total: nat, o: Obj)
    requires Representable(o)
    ensures SetRet(objs, total, o).Ok? <==> Storable(o) && Used(Put(objs, o)) <= total
    ensures SetRet(objs, total, o).InsufficientMemory? <==> Used(Put(objs, o)) + Slack(o) > total
  {
    hide Put, Used, EncodeObject, CalcSize, Slack, Find;
    UsedAfterPut(objs, o);
    CalcSizeAgainstEncoding(o);
  }

  // ------------------------------------------------ when a set does damage

  lemma StopsTheProcess(b: seq<byte>, o: Obj)
    requires WellFormed(b) && ReadHeader(b).0.Ok? && Slack(o) > 0 && Fits(Contents(b), TotalOf(b), o)
    ensures SetEffect(b, o, AssertFailed, b)
  {
    hide ReadHeader, Parse, Holds, Fits, Slack;
  }

  /** Whether a set returns and leaves readers the block they had, or on success the updated
      one, can be told before the call. */
  lemma SetIsSafeIffHarmless(b: seq<byte>, o: Obj)
    requires CanSet(b, o)
    ensures Harmless(Contents(b), TotalOf(b), o)
       <==> forall ret, b' | SetEffect(b, o, ret, b') ::
              && !ret.AssertFailed? && WellFormed(b')
              && Contents(b') == if ret.Ok? then Put(Contents(b), o) else Contents(b)
  {
    hide EncodeAll, EncodeObject, EncodeHeader, ReadHeader, Parse, Splice, Offset, Placed, SetEffect, CalcSize, Used;
    hide Unnoticed, Kept, Slack, Fits, Put, Representable;
    var objs, total := Contents(b), TotalOf(b);
    if Harmless(objs, total, o) {
      forall ret, b' | SetEffect(b, o, ret, b')
        ensures !ret.AssertFailed? && WellFormed(b') && Contents(b') == if ret.Ok? then Put(objs, o) else objs
      {
        HarmlessSet(b, o, ret, b');
      }
    } else if Slack(o) > 0 {
      HeaderOf(b, total, objs);
      StopsTheProcess(b, o);
      assert SetEffect(b, o, AssertFailed, b);
    } else {
      HeaderOf(b, total, objs);
      RoomForSet(b, total, objs, o);
      var b' := Placed(b, PlaceOf(objs, o.key), CalcSize(o), Kept(o));
      SetEstablished(b, o, CouldNotWriteTotalLength, b');
      UnnoticedIff(b, total, objs, o);
      assert SetEffect(b, o, CouldNotWriteTotalLength, b');
    }
  }

  // --------------------------------------------------------------- merging

  lemma {:induction false} AsMapPutAll(dest: seq<Obj>, src: seq<Obj>)
    requires DistinctKeys(dest) && AllStorable(dest) && DistinctKeys(src) && AllStorable(src)
    ensures DistinctKeys(PutAll(dest, src)) && AllStorable(PutAll(dest, src))
    ensures AsMap(PutAll(dest, src)) == AsMap(dest) + AsMap(src)
    decreases |src|
  {
    hide Storable, Find, AsMap, Put;
    if src == [] {
      AsMapNone();
    } else {
      PutKeepsInvariants(dest, src[0]);
      AsMapPutAll(Put(dest, src[0]), src[1..]);
      AsMapPut(dest, src[0]);
      AsMapFirst(src);
      OverrideOnce(AsMap(dest), AsMap(src[1..]), src[0].key, src[0].value);
    }
  }

  lemma AsMapNone()
    ensures AsMap([]) == map[]
  {
  }

  lemma OverrideOnce(m: map<Key, Value>, n: map<Key, Value>, k: Key, v: Value)
    requires k !in n
    ensures m[k := v] + n == m + n[k := v]
  {
  }

  lemma AsMapFirst(src: seq<Obj>)
    requires DistinctKeys(src) && src != []
    ensures src[0].key !in AsMap(src[1..])
    ensures AsMap(src) == AsMap(src[1..])[src[0].key := src[0].value]
  {
    var m := AsMap(src[1..])[src[0].key := src[0].value];
    forall k ensures Lookup(src, k) == if k in m then Some(m[k]) else None {
      AsMapLookup(src[1..], k);
    }
    MapsEqual(src, m);
  }

  /** A merge stores objects as long as each goes in, and stops at the first that does not. */
  lemma {:induction false} MergeIsAPrefix(total: nat, dest: seq<Obj>, src: seq<Obj>)
    ensures var k := Taken(total, dest, src);
            && (forall j | 0 <= j < k :: SetRet(PutAll(dest, src[..j]), total, src[j]).Ok?)
            && (k < |src| ==> !SetRet(PutAll(dest, src[..k]), total, src[k]).Ok?)
    decreases |src|
  {
    hide Put, SetRet;
    if src != [] && SetRet(dest, total, src[0]).Ok? {
      var d := Put(dest, src[0]);
      MergeIsAPrefix(total, d, src[1..]);
      forall j | 0 < j <= |src| ensures PutAll(dest, src[..j]) == PutAll(d, src[1..][..j - 1]) {
        assert src[..j][1..] == src[1..][..j - 1];
      }
      forall j | 0 <= j < Taken(total, dest, src) ensures SetRet(PutAll(dest, src[..j]), total, src[j]).Ok? {
        if j > 0 {
          assert src[j] == src[1..][j - 1];
        }
      }
    }
  }

  /** np_merge_data: success means the old destination overridden by the source; an early
      stop means it is overridden by the objects before the first that did not fit. */
  lemma MergeOverrides(dest: seq<byte>, src: seq<byte>, ret: Ret, dest': seq<byte>) returns (k: nat)
    requires WellFormed(dest) && WellFormed(src) && MergeEffect(dest, src, ret, dest')
    ensures WellFormed(dest') && TotalOf(dest') == TotalOf(dest)
    ensures k <= |Contents(src)|
    ensures AsMap(Contents(dest')) == AsMap(Contents(dest)) + AsMap(Contents(src)[..k])
    ensures ret.Ok? <==> k == |Contents(src)|
    ensures ret.Ok? ==> AsMap(Contents(dest')) == AsMap(Contents(dest)) + AsMap(Contents(src))
    ensures !ret.Ok? ==> ret.InsufficientMemory? && !Fits(Contents(dest'), TotalOf(dest'), Contents(src)[k])
  {
    hide ReadHeader, Parse, EncodeHeader, Used, Body, Fits, Put, AsMap, Find, RefusedSet;
    var d, s, total := Contents(dest), Contents(src), TotalOf(dest);
    HeaderOf(dest, total, d);
    HeaderOf(src, TotalOf(src), s);
    k := Taken(total, d, s);
    MergeIsAPrefix(total, d, s);
    AsMapPutAll(d, s[..k]);
    assert s[..|s|] == s;
    if k < |s| {
      RefusedKeeps(|dest|, total, PutAll(d, s[..k]), s[k], ret, dest');
    }
    HoldsDetermines(dest', total, PutAll(d, s[..k]));
  }

  lemma RefusedKeeps(size: nat, total: nat, objs: seq<Obj>, o: Obj, ret: Ret, dest': seq<byte>)
    requires RefusedSet(size, total, objs, o, ret, dest') && Storable(o) && !ret.Ok?
    ensures Holds(dest', total, objs) && ret.InsufficientMemory? && !Fits(objs, total, o)
  {
    hide ReadHeader, Parse, EncodeHeader, Used, Body, Fits, Put, Find, SetEffect;
    var d :| |d| == size && Holds(d, total, objs) && Readable(d) && SetEffect(d, o, ret, dest');
    HoldsDetermines(d, total, objs);
    HeaderOf(d, total, objs);
    SetStorable(d, o, ret, dest');
  }

  /** A source with an object that cannot be read is never reported as merged. */
  lemma UnreadableSourceIsReported(dest: seq<byte>, src: seq<byte>, ret: Ret, dest': seq<byte>)
    requires Readable(dest) && |src| >= HEADER_SIZE && |Contents(src)| < GoalOf(src)
    requires MergeEffect(dest, src, ret, dest')
    ensures !ret.Ok?
  {
    hide ReadHeader, Parse, Holds, SetRet, Put;
    MergeIsAPrefix(TotalOf(dest), Contents(dest), Contents(src));
  }

  /** A merge, complete or not, leaves alone every key the source does not define. */
  lemma MergeKeepsOthers(dest: seq<byte>, src: seq<byte>, ret: Ret, dest': seq<byte>, key: Key)
    requires WellFormed(dest) && WellFormed(src) && MergeEffect(dest, src, ret, dest')
    requires !Has(Contents(src), key)
    ensures WellFormed(dest') && Lookup(Contents(dest'), key) == Lookup(Contents(dest), key)
  {
    hide Holds, MergeEffect, ReadHeader, Parse, AsMap;
    var k := MergeOverrides(dest, src, ret, dest');
    var prefix := Contents(src)[..k];
    assert !Has(prefix, key);
    AsMapLookup(prefix, key);
    AsMapLookup(Contents(dest), key);
    AsMapLookup(Contents(dest'), key);
  }
}
