/** The attribute path of a user message in src/neuropil.c: what np_send_to puts into the
    message body and what __np_receive_callback_converter hands to the callback. */
module Messages {
  import opened Bytes
  import opened Cbor
  import opened KvCodec
  import opened Layout
  import opened Datablock
  import opened DatablockRuns

  const FROM: Key := Ascii("_np.from")

  /** The message body: the values under "np.userdata" and "np.attributes". */
  datatype MessageBody = MessageBody(userdata: Option<seq<byte>>, attributes: Option<seq<byte>>)

  /** What the callback sees of a message. */
  datatype Message = Message(from: seq<byte>, data: seq<byte>)

  /** Nothing delivered, a delivery, or the failed assert on the size of `_np.from`. */
  datatype Delivery = NoUserdata | Delivered(message: Message) | AssertionFailed

  function FromObject(identity: seq<byte>): Obj {
    Obj(FROM, Bin(identity))
  }

  lemma FromIsStorable(identity: seq<byte>)
    requires |identity| == FINGERPRINT_SIZE
    ensures Storable(FromObject(identity)) && ObjectSize(FromObject(identity)) == CalcSize(FromObject(identity)) == 43
  {
    assert |FROM| == 8;
    CalcSizeAgainstEncoding(FromObject(identity));
  }

  // ------------------------------------------------------------- sending

  /** The objects of src that a merge stores. */
  function Stored(dest: seq<Obj>, src: seq<Obj>): seq<Obj> {
    src[..Taken(ATTRIBUTES_SIZE, dest, src)]
  }

  function MergedWith(dest: seq<Obj>, src: seq<Obj>): seq<Obj> {
    PutAll(dest, Stored(dest, src))
  }

  /** The attributes of a message: the sender, then what fits of the three caches. */
  function SentContents(identity: seq<byte>, user: seq<Obj>, ident: seq<Obj>, intent: seq<Obj>): seq<Obj> {
    MergedWith(MergedWith(MergedWith([FromObject(identity)], user), ident), intent)
  }

  lemma FewTogether(dest: seq<byte>, src: seq<byte>)
    requires Readable(dest) && Readable(src) && |dest| == |src| == ATTRIBUTES_SIZE
    requires TotalOf(dest) < 0x8000_0000
    ensures Mergeable(dest, Contents(src))
  {
    hide ReadHeader, Parse, WellFormed, CalcSize;
    FewObjects(dest);
    FewObjects(src);
    PutAllBounds(Contents(dest), Contents(src));
    ReadableIsStorable(src);
  }

  lemma ReadableIsStorable(b: seq<byte>)
    requires Readable(b)
    ensures AllStorable(Contents(b)) && DistinctKeys(Contents(b))
  {
    hide ReadHeader, Parse, Storable, Find;
    if !ReadHeader(b).0.Ok? {
      UnreadableIsEmpty(b);
    }
  }

  lemma OneMerge(d: seq<byte>, src: seq<byte>, ret: Ret, d': seq<byte>, objs: seq<Obj>)
    requires Holds(d, ATTRIBUTES_SIZE, objs) && Readable(src) && Readable(d) && MergeEffect(d, src, ret, d')
    ensures Holds(d', ATTRIBUTES_SIZE, MergedWith(objs, Contents(src))) && Readable(d')
    ensures |d'| == |d| && TotalOf(d') == ATTRIBUTES_SIZE
  {
    hide ReadHeader, Parse, EncodeHeader, Body, Used, Put, SetRet, RefusedSet, Taken, PutAll;
    HoldsDetermines(d, ATTRIBUTES_SIZE, objs);
    HeaderOf(d, ATTRIBUTES_SIZE, objs);
    var list, k := Contents(src), Taken(ATTRIBUTES_SIZE, objs, Contents(src));
    if !ReadHeader(src).0.Ok? {
      UnreadableIsEmpty(src);
      MergedNothing(objs);
    } else if k < |list| {
      ReadableIsStorable(src);
      MergeIsAPrefix(ATTRIBUTES_SIZE, objs, list);
      RefusedKeeps(|d|, ATTRIBUTES_SIZE, PutAll(objs, list[..k]), list[k], ret, d');
    }
    HoldsDetermines(d', ATTRIBUTES_SIZE, MergedWith(objs, list));
  }

  /** The attribute part of np_send_to. The results of the merges are ignored. */
  method BuildBody(identity: seq<byte>, payload: seq<byte>, user: array<byte>, ident: array<byte>, intent: array<byte>)
      returns (body: MessageBody)
    requires |identity| == FINGERPRINT_SIZE
    requires user.Length == ident.Length == intent.Length == ATTRIBUTES_SIZE
    requires Readable(user[..]) && Readable(ident[..]) && Readable(intent[..])
    ensures body.userdata == Some(payload)
    ensures body.attributes.Some? && |body.attributes.value| <= ATTRIBUTES_SIZE
    ensures Holds(ReceivedAttributes(body), ATTRIBUTES_SIZE,
                  SentContents(identity, Contents(user[..]), Contents(ident[..]), Contents(intent[..])))
  {
    hide ReadHeader, Parse, Holds, WellFormed, SetEffect, MergeEffect, MergedWith, Mergeable, CalcSize, Storable;
    hide Used, Fits;
    var tmp := new byte[ATTRIBUTES_SIZE](i => 0);
    ghost var u, d, t := user[..], ident[..], intent[..];
    var ret := InitDatablock(tmp, ATTRIBUTES_SIZE);
    var o := FromObject(identity);
    ghost var b0 := tmp[..];
    InitIsReadable(b0, o, identity);
    ret := SetData(tmp, o);
    ghost var b1 := tmp[..];
    FromIsStored(b0, identity, ret, b1);
    FewTogether(b1, u);
    ret := MergeData(tmp, user);
    ghost var b2 := tmp[..];
    OneMerge(b1, u, ret, b2, [o]);
    FewTogether(b2, d);
    ret := MergeData(tmp, ident);
    ghost var b3 := tmp[..];
    OneMerge(b2, d, ret, b3, MergedWith([o], Contents(u)));
    FewTogether(b3, t);
    ret := MergeData(tmp, intent);
    ghost var b4 := tmp[..];
    OneMerge(b3, t, ret, b4, MergedWith(MergedWith([o], Contents(u)), Contents(d)));

    var size: nat;
    ret, size := GetDataSize(tmp);
    ShipPrefix(b4, SentContents(identity, Contents(u), Contents(d), Contents(t)), size);
    body := MessageBody(Some(payload), Some(tmp[..size]));
    assert tmp[..size] == b4[..size];
  }

  lemma InitIsReadable(b: seq<byte>, o: Obj, identity: seq<byte>)
    requires Holds(b, ATTRIBUTES_SIZE, []) && |identity| == FINGERPRINT_SIZE && o == FromObject(identity)
    ensures Readable(b) && Contents(b) == [] && TotalOf(b) == ATTRIBUTES_SIZE && Representable(o)
  {
    hide EncodeHeader, Parse, ReadHeader;
    HoldsDetermines(b, ATTRIBUTES_SIZE, []);
    FromIsStorable(identity);
  }

  lemma FromIsStored(b: seq<byte>, identity: seq<byte>, ret: Ret, b': seq<byte>)
    requires Holds(b, ATTRIBUTES_SIZE, []) && |identity| == FINGERPRINT_SIZE && Readable(b)
    requires SetEffect(b, FromObject(identity), ret, b')
    ensures Holds(b', ATTRIBUTES_SIZE, [FromObject(identity)]) && Readable(b')
    ensures |b'| == |b| && TotalOf(b') == ATTRIBUTES_SIZE
  {
    hide EncodeHeader, Parse, ReadHeader, Body, Storable, CalcSize;
    var o := FromObject(identity);
    HoldsDetermines(b, ATTRIBUTES_SIZE, []);
    HeaderOf(b, ATTRIBUTES_SIZE, []);
    FromIsStorable(identity);
    SetStorable(b, o, ret, b');
    assert Put([], o) == [o];
  }

  lemma ShipPrefix(b: seq<byte>, objs: seq<Obj>, size: nat)
    requires Holds(b, ATTRIBUTES_SIZE, objs) && |b| == ATTRIBUTES_SIZE
    requires WellFormed(b) ==> size == Used(Contents(b))
    ensures size <= |b| && Holds(b[..size] + Zeros(ATTRIBUTES_SIZE - size), ATTRIBUTES_SIZE, objs)
  {
    hide EncodeHeader, Parse, ReadHeader, Body;
    HoldsDetermines(b, ATTRIBUTES_SIZE, objs);
    OnlyThePrefixCounts(b, Zeros(ATTRIBUTES_SIZE - size));
  }

  // ------------------------------------------------------------ receiving

  /** The attributes the receiver works on: an empty block when none were sent, the zeroed
      array when they are too long, else a copy in front of zeroes. */
  function ReceivedAttributes(body: MessageBody): (b: seq<byte>)
    ensures |b| == ATTRIBUTES_SIZE
  {
    match body.attributes
    case None =>
      var h := EncodeHeader(Header(ATTRIBUTES_SIZE, HEADER_SIZE, 0)); h + Zeros(ATTRIBUTES_SIZE - |h|)
    case Some(a) => if |a| <= ATTRIBUTES_SIZE then a + Zeros(ATTRIBUTES_SIZE - |a|) else Zeros(ATTRIBUTES_SIZE)
  }

  /** What __np_receive_callback_converter delivers. */
  function Received(body: MessageBody): Delivery {
    if body.userdata.None? then NoUserdata
    else
      match Lookup(Contents(ReceivedAttributes(body)), FROM)
      case None => Delivered(Message(Zeros(FINGERPRINT_SIZE), body.userdata.value))
      case Some(v) =>
        var p := Pointed(v);
        if p.Some? && |p.value| == FINGERPRINT_SIZE then Delivered(Message(p.value, body.userdata.value))
        else AssertionFailed
  }

  /** __np_receive_callback_converter */
  method Receive(body: MessageBody) returns (d: Delivery)
    requires Searchable(ReceivedAttributes(body), FROM)
    ensures d == Received(body)
  {
    hide ReadHeader, Parse, Find, EncodeHeader, Searchable;
    if body.userdata.None? {
      return NoUserdata;
    }
    var attributes := new byte[ATTRIBUTES_SIZE](i => 0);
    ghost var zeroed := attributes[..];
    assert zeroed == Zeros(ATTRIBUTES_SIZE);
    match body.attributes {
      case None =>
        Write(attributes, 0, Zeros(ATTRIBUTES_SIZE));
        Write(attributes, 0, EncodeHeader(Header(ATTRIBUTES_SIZE, HEADER_SIZE, 0)));
        OverZeros(EncodeHeader(Header(ATTRIBUTES_SIZE, HEADER_SIZE, 0)));
      case Some(a) =>
        if |a| <= ATTRIBUTES_SIZE {
          Write(attributes, 0, a);
          OverZeros(a);
        }
    }
    assert attributes[..] == ReceivedAttributes(body);
    var ret, value := GetData(attributes, FROM);
    if !ret.Ok? {
      return Delivered(Message(Zeros(FINGERPRINT_SIZE), body.userdata.value));
    }
    var p := Pointed(value.value);
    if p.Some? && |p.value| == FINGERPRINT_SIZE {
      return Delivered(Message(p.value, body.userdata.value));
    }
    return AssertionFailed;
  }

  lemma OverZeros(a: seq<byte>)
    requires |a| <= ATTRIBUTES_SIZE
    ensures Splice(Zeros(ATTRIBUTES_SIZE), 0, a) == a + Zeros(ATTRIBUTES_SIZE - |a|)
    ensures Splice(Zeros(ATTRIBUTES_SIZE), 0, Zeros(ATTRIBUTES_SIZE)) == Zeros(ATTRIBUTES_SIZE)
  {
  }

  /** A message without a sender of the right size never names anybody: without attributes, or
      with more than the array takes, the callback sees the payload and the zero identity. */
  lemma NobodyIsTheSender(body: MessageBody)
    requires body.userdata.Some?
    requires body.attributes.None? || |body.attributes.value| > ATTRIBUTES_SIZE
    ensures Searchable(ReceivedAttributes(body), FROM)
    ensures Received(body) == Delivered(Message(Zeros(FINGERPRINT_SIZE), body.userdata.value))
  {
    hide EncodeHeader, Find;
    var b := ReceivedAttributes(body);
    if body.attributes.None? {
      ReadWrittenHeader(Header(ATTRIBUTES_SIZE, HEADER_SIZE, 0), Zeros(ATTRIBUTES_SIZE - HEADER_SIZE));
    } else {
      assert ReadHead(b[..HEADER_SIZE]) == Some(HeadItem(UNSIGNED, 0, 1));
    }
    assert Contents(b) == [] && GoalOf(b) == 0;
    NothingHas(FROM);
  }

  lemma NothingHas(key: Key)
    ensures !Has([], key)
  {
  }

  // ------------------------------------------------------------- theorems

  /** Contents a cache can have. */
  predicate CacheContents(objs: seq<Obj>) {
    AllStorable(objs) && DistinctKeys(objs)
  }

  lemma MergedKeeps(dest: seq<Obj>, src: seq<Obj>)
    requires CacheContents(dest) && CacheContents(src)
    ensures CacheContents(MergedWith(dest, src))
  {
    hide AsMap, Find, Storable, Taken;
    MergeIsAPrefix(ATTRIBUTES_SIZE, dest, src);
    AsMapPutAll(dest, Stored(dest, src));
  }

  function Overriding(a: Option<Value>, b: Option<Value>): Option<Value> {
    if b.Some? then b else a
  }

  lemma MergedLookup(dest: seq<Obj>, src: seq<Obj>, key: Key)
    requires CacheContents(dest) && CacheContents(src)
    ensures Lookup(MergedWith(dest, src), key) == Overriding(Lookup(dest, key), Lookup(Stored(dest, src), key))
  {
    hide AsMap, Find, Storable, Taken;
    MergeIsAPrefix(ATTRIBUTES_SIZE, dest, src);
    AsMapPutAll(dest, Stored(dest, src));
    AsMapLookup(Stored(dest, src), key);
    AsMapLookup(dest, key);
    AsMapLookup(MergedWith(dest, src), key);
  }

  /** The `_np.from` of the last cache whose merge reaches one. */
  function OtherSender(identity: seq<byte>, user: seq<Obj>, ident: seq<Obj>, intent: seq<Obj>): Option<Value> {
    var one := MergedWith([FromObject(identity)], user);
    var two := MergedWith(one, ident);
    Overriding(Overriding(Lookup(Stored([FromObject(identity)], user), FROM), Lookup(Stored(one, ident), FROM)),
               Lookup(Stored(two, intent), FROM))
  }

  /** No cache brings a sender of its own, or the last that does brings the same. */
  predicate SenderStands(identity: seq<byte>, user: seq<Obj>, ident: seq<Obj>, intent: seq<Obj>) {
    var other := OtherSender(identity, user, ident, intent);
    other.None? || Pointed(other.value) == Some(identity)
  }

  lemma SentSender(identity: seq<byte>, user: seq<Obj>, ident: seq<Obj>, intent: seq<Obj>)
    requires |identity| == FINGERPRINT_SIZE
    requires CacheContents(user) && CacheContents(ident) && CacheContents(intent)
    ensures Lookup(SentContents(identity, user, ident, intent), FROM)
         == Overriding(Some(Bin(identity)), OtherSender(identity, user, ident, intent))
  {
    hide MergedWith, Stored, Storable, Find;
    FromIsStorable(identity);
    var start := [FromObject(identity)];
    assert Lookup(start, FROM) == Some(Bin(identity)) by { FindFirst(start[0]); }
    var one, two := MergedWith(start, user), MergedWith(MergedWith(start, user), ident);
    MergedKeeps(start, user);
    MergedKeeps(one, ident);
    MergedLookup(start, user, FROM);
    MergedLookup(one, ident, FROM);
    MergedLookup(two, intent, FROM);
  }

  /** Whatever the caches hold and however much of it fits: the receiver sees the payload
      and the sender's identity exactly when the sender stands. */
  lemma ReceiverSeesTheSender(identity: seq<byte>, user: seq<Obj>, ident: seq<Obj>, intent: seq<Obj>, body: MessageBody)
    requires |identity| == FINGERPRINT_SIZE
    requires CacheContents(user) && CacheContents(ident) && CacheContents(intent)
    requires body.userdata.Some?
    requires Holds(ReceivedAttributes(body), ATTRIBUTES_SIZE, SentContents(identity, user, ident, intent))
    ensures Searchable(ReceivedAttributes(body), FROM)
    ensures Received(body) == Delivered(Message(identity, body.userdata.value))
       <==> SenderStands(identity, user, ident, intent)
  {
    hide Holds, ReadHeader, Parse, SentContents, OtherSender, ReceivedAttributes, Storable, Searchable, Find;
    var objs := SentContents(identity, user, ident, intent);
    HoldsDetermines(ReceivedAttributes(body), ATTRIBUTES_SIZE, objs);
    HeaderIsRead(ReceivedAttributes(body));
    ReadableIsSearchable(ReceivedAttributes(body), FROM);
    SentSender(identity, user, ident, intent);
  }

  // ------------------------------------------------ when everything fits

  /** A merge into a block with room for all of the source stores all of it. */
  lemma {:induction false} EverythingIsTaken(dest: seq<Obj>, src: seq<Obj>)
    requires AllStorable(src) && Used(dest) + |EncodeAll(src)| <= ATTRIBUTES_SIZE
    ensures Taken(ATTRIBUTES_SIZE, dest, src) == |src|
    ensures Used(PutAll(dest, src)) <= Used(dest) + |EncodeAll(src)|
    decreases |src|
  {
    hide EncodeAll, EncodeObject, Used, Put, CalcSize, Find, Representable, Slack;
    if src != [] {
      EncodeFirst(src);
      CalcSizeAgainstEncoding(src[0]);
      OldFits(dest, src[0]);
      UsedAfterPut(dest, src[0]);
      EverythingIsTaken(Put(dest, src[0]), src[1..]);
    }
  }

  lemma OldFits(dest: seq<Obj>, o: Obj)
    requires Storable(o) && Used(dest) + ObjectSize(o) <= ATTRIBUTES_SIZE
    ensures SetRet(dest, ATTRIBUTES_SIZE, o).Ok?
  {
    hide EncodeObject, Used, CalcSize, Find;
    CalcSizeAgainstEncoding(o);
  }

  /** The last of the three caches, in the order they are merged, that defines `_np.from`. */
  function LastDefinition(user: seq<Obj>, ident: seq<Obj>, intent: seq<Obj>): Option<Value> {
    if Has(intent, FROM) then Lookup(intent, FROM)
    else if Has(ident, FROM) then Lookup(ident, FROM)
    else Lookup(user, FROM)
  }

  /** The header, the sender and all three caches fit into the attributes of a message. */
  predicate AllFits(identity: seq<byte>, user: seq<Obj>, ident: seq<Obj>, intent: seq<Obj>) {
    HEADER_SIZE + ObjectSize(FromObject(identity)) + |EncodeAll(user)| + |EncodeAll(ident)| + |EncodeAll(intent)|
    <= ATTRIBUTES_SIZE
  }

  lemma StoredIsEverything(dest: seq<Obj>, src: seq<Obj>)
    requires AllStorable(src) && Used(dest) + |EncodeAll(src)| <= ATTRIBUTES_SIZE
    ensures Stored(dest, src) == src && Used(MergedWith(dest, src)) <= Used(dest) + |EncodeAll(src)|
  {
    hide EncodeAll, Used, Taken, PutAll, Storable;
    EverythingIsTaken(dest, src);
    assert src[..|src|] == src;
  }

  lemma OneObjectUsed(o: Obj)
    ensures Used([o]) == HEADER_SIZE + ObjectSize(o)
  {
    hide EncodeObject;
    assert Encodings([o]) == [EncodeObject(o)];
    FlattenOne(EncodeObject(o));
  }

  /** What a sender can check: when the sizes add up, the sender stands exactly when no cache
      defines `_np.from`, or the last one that does holds the sender's own identity. */
  lemma SenderStandsIff(identity: seq<byte>, user: seq<Obj>, ident: seq<Obj>, intent: seq<Obj>)
    requires |identity| == FINGERPRINT_SIZE && AllFits(identity, user, ident, intent)
    requires CacheContents(user) && CacheContents(ident) && CacheContents(intent)
    ensures SenderStands(identity, user, ident, intent) <==> LastIsOwn(identity, user, ident, intent)
  {
    hide EncodeAll, Used, MergedWith, Stored, Storable, Find, EncodeObject;
    var start := [FromObject(identity)];
    OneObjectUsed(start[0]);
    var one, two := MergedWith(start, user), MergedWith(MergedWith(start, user), ident);
    StoredIsEverything(start, user);
    StoredIsEverything(one, ident);
    StoredIsEverything(two, intent);
  }

  /** The last cache that defines `_np.from`, if any, holds the sender's own identity. */
  predicate LastIsOwn(identity: seq<byte>, user: seq<Obj>, ident: seq<Obj>, intent: seq<Obj>) {
    var last := LastDefinition(user, ident, intent);
    last.None? || Pointed(last.value) == Some(identity)
  }

  /** So the receiver sees the sender's identity exactly under a condition on the caches. */
  lemma DeliveredIff(identity: seq<byte>, user: seq<Obj>, ident: seq<Obj>, intent: seq<Obj>, body: MessageBody)
    requires |identity| == FINGERPRINT_SIZE && AllFits(identity, user, ident, intent)
    requires CacheContents(user) && CacheContents(ident) && CacheContents(intent)
    requires body.userdata.Some?
    requires Holds(ReceivedAttributes(body), ATTRIBUTES_SIZE, SentContents(identity, user, ident, intent))
    ensures Received(body) == Delivered(Message(identity, body.userdata.value))
       <==> LastIsOwn(identity, user, ident, intent)
  {
    hide Holds, SentContents, ReceivedAttributes, Storable, Find, SenderStands, Received, AllFits;
    ReceiverSeesTheSender(identity, user, ident, intent, body);
    SenderStandsIff(identity, user, ident, intent);
  }

  /** The sender stands in particular when no cache defines `_np.from`. */
  lemma CachesWithoutSender(identity: seq<byte>, user: seq<Obj>, ident: seq<Obj>, intent: seq<Obj>)
    requires !Has(user, FROM) && !Has(ident, FROM) && !Has(intent, FROM)
    ensures OtherSender(identity, user, ident, intent).None? && SenderStands(identity, user, ident, intent)
  {
    hide MergedWith, Taken, Find;
    var start := [FromObject(identity)];
    var one, two := MergedWith(start, user), MergedWith(MergedWith(start, user), ident);
    PrefixLacks(user, Taken(ATTRIBUTES_SIZE, start, user), FROM);
    PrefixLacks(ident, Taken(ATTRIBUTES_SIZE, one, ident), FROM);
    PrefixLacks(intent, Taken(ATTRIBUTES_SIZE, two, intent), FROM);
  }

  lemma PrefixLacks(src: seq<Obj>, k: nat, key: Key)
    requires k <= |src| && !Has(src, key)
    ensures !Has(src[..k], key)
  {
  }

  /** The condition is needed: a last cache that starts with a `_np.from` of its own replaces the sender. */
  lemma CacheCanReplaceTheSender(identity: seq<byte>, other: seq<byte>, user: seq<Obj>, ident: seq<Obj>)
    requires |identity| == FINGERPRINT_SIZE && |other| == FINGERPRINT_SIZE
    requires CacheContents(user) && CacheContents(ident) && !Has(user, FROM) && !Has(ident, FROM)
    requires Used(MergedWith(MergedWith([FromObject(identity)], user), ident)) <= ATTRIBUTES_SIZE
    ensures Lookup(SentContents(identity, user, ident, [FromObject(other)]), FROM) == Some(Bin(other))
  {
    hide MergedWith, Storable, Find, CalcSize, ObjectSize, Used;
    FromIsStorable(identity);
    FromIsStorable(other);
    var start := [FromObject(identity)];
    MergedKeeps(start, user);
    MergedKeeps(MergedWith(start, user), ident);
    CachesWithoutSender(identity, user, ident, []);
    SentSender(identity, user, ident, []);
    MergedNothing(MergedWith(MergedWith(start, user), ident));
    ReplaceFits(MergedWith(MergedWith(start, user), ident), identity, other);
  }

  lemma MergedNothing(dest: seq<Obj>)
    ensures MergedWith(dest, []) == dest
  {
  }

  lemma FindFirst(o: Obj)
    ensures Find([o], o.key) == 0
  {
  }

  lemma ReplaceFits(objs: seq<Obj>, identity: seq<byte>, other: seq<byte>)
    requires CacheContents(objs) && Lookup(objs, FROM) == Some(Bin(identity))
    requires |identity| == FINGERPRINT_SIZE && |other| == FINGERPRINT_SIZE && Used(objs) <= ATTRIBUTES_SIZE
    ensures Lookup(MergedWith(objs, [FromObject(other)]), FROM) == Some(Bin(other))
  {
    hide Used, EncodeObject, CalcSize;
    var o := FromObject(other);
    FromIsStorable(identity);
    FromIsStorable(other);
    assert objs[Find(objs, FROM)] == FromObject(identity);
    assert Fits(objs, ATTRIBUTES_SIZE, o);
    assert [o][1..] == [];
    assert SetRet(objs, ATTRIBUTES_SIZE, o) == Ok;
    assert Taken(ATTRIBUTES_SIZE, Put(objs, o), []) == 0 && Taken(ATTRIBUTES_SIZE, objs, [o]) == 1;
    assert Stored(objs, [o]) == [o];
    assert PutAll(objs, [o]) == PutAll(Put(objs, o), []);
    assert MergedWith(objs, [o]) == Put(objs, o);
    LookupAfterPut(objs, o, FROM);
  }

  /** From np_send_to to the callback: it gets the payload and the sender's identity exactly
      when the sender stands, which can be told from the caches when everything fits. */
  method SendAndReceive(identity: seq<byte>, payload: seq<byte>,
                        user: array<byte>, ident: array<byte>, intent: array<byte>) returns (d: Delivery)
    requires |identity| == FINGERPRINT_SIZE
    requires user.Length == ident.Length == intent.Length == ATTRIBUTES_SIZE
    requires Readable(user[..]) && Readable(ident[..]) && Readable(intent[..])
    ensures !d.NoUserdata?
    ensures var (u, i, t) := (Contents(user[..]), Contents(ident[..]), Contents(intent[..]));
            && (d == Delivered(Message(identity, payload)) <==> SenderStands(identity, u, i, t))
            && (!Has(u, FROM) && !Has(i, FROM) && !Has(t, FROM) ==> d == Delivered(Message(identity, payload)))
            && (AllFits(identity, u, i, t) ==>
                  (d == Delivered(Message(identity, payload)) <==> LastIsOwn(identity, u, i, t)))
  {
    hide ReadHeader, Parse, Holds, WellFormed, Find, Storable, SentContents, ReceivedAttributes, Searchable;
    hide SenderStands, OtherSender, AllFits, LastIsOwn;
    ghost var u, i, t := Contents(user[..]), Contents(ident[..]), Contents(intent[..]);
    ReadableIsStorable(user[..]);
    ReadableIsStorable(ident[..]);
    ReadableIsStorable(intent[..]);
    var body := BuildBody(identity, payload, user, ident, intent);
    ReceiverSeesTheSender(identity, u, i, t, body);
    d := Receive(body);
    if !Has(u, FROM) && !Has(i, FROM) && !Has(t, FROM) {
      CachesWithoutSender(identity, u, i, t);
    }
    if AllFits(identity, u, i, t) {
      SenderStandsIff(identity, u, i, t);
    }
  }
}
