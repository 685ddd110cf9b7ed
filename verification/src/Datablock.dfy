/** The datablock operations of src/neuropil_data.c: a key/value store packed into one
    caller-owned byte buffer, searched, shifted and rewritten in place. */
module Datablock {
  import opened Bytes
  import opened KvCodec
  import opened Layout

  /** The loop counters of the source. */
  type uint16 = n: int | 0 <= n < 0x1_0000

  /** The increment of a uint16_t. */
  function Next(n: uint16): uint16 {
    if n == 0xFFFF then 0 else n + 1
  }

  /** Blocks the operations may be given: the header is unreadable, or the block is well-formed. */
  predicate Readable(b: seq<byte>) {
    |b| >= HEADER_SIZE && (ReadHeader(b).0.Ok? ==> WellFormed(b))
  }

  lemma HeaderIsRead(b: seq<byte>)
    requires WellFormed(b)
    ensures Readable(b) && ReadHeader(b).0.Ok? && UsedOf(b) == Used(Contents(b)) <= |b|
  {
    hide EncodeHeader, Parse, Body;
    HeaderOf(b, TotalOf(b), Contents(b));
  }

  /** Whether a search for this key comes to an answer: it meets the key, or everything it
      goes for can be read. */
  predicate Searchable(b: seq<byte>, key: Key) {
    |b| >= HEADER_SIZE && (Has(Contents(b), key) || |Contents(b)| == GoalOf(b))
  }

  lemma ReadableIsSearchable(b: seq<byte>, key: Key)
    requires Readable(b)
    ensures Searchable(b, key)
  {
    hide ReadHeader, Parse, EncodeHeader, Body, Find;
    if ReadHeader(b).0.Ok? {
      HeaderOf(b, TotalOf(b), Contents(b));
    }
  }

  lemma UnreadableIsEmpty(b: seq<byte>)
    requires |b| >= HEADER_SIZE && !ReadHeader(b).0.Ok?
    ensures Contents(b) == [] && GoalOf(b) == 0
  {
    hide ReadHeader;
  }

  // ------------------------------------------------------- what a set does

  /** Bytes of the object with this key, 0 when there is none. */
  function OldSize(objs: seq<Obj>, key: Key): nat {
    var i := Find(objs, key);
    if i < |objs| then ObjectSize(objs[i]) else 0
  }

  predicate Fits(objs: seq<Obj>, total: nat, o: Obj) {
    CalcSize(o) <= total - Used(objs) + OldSize(objs, o.key)
  }

  /** The return code of np_set_data on a well-formed block. */
  function SetRet(objs: seq<Obj>, total: nat, o: Obj): Ret {
    if !Fits(objs, total, o) then InsufficientMemory
    else if Slack(o) == 0 then Ok
    else if Slack(o) < 0 then CouldNotWriteTotalLength
    else AssertFailed
  }

  /** Where np_set_data writes: in the place of the bytes from `start` to `end`, which is
      behind the last object when the key is new. */
  datatype Place = Place(start: nat, end: nat, used: nat)

  function PlaceOf(objs: seq<Obj>, key: Key): Place {
    var i := Find(objs, key);
    if i < |objs| then Place(Offset(objs, i), Offset(objs, i + 1), Used(objs))
    else Place(Used(objs), Used(objs), Used(objs))
  }

  predicate HasRoom(b: seq<byte>, p: Place, room: nat) {
    HEADER_SIZE <= p.start <= p.end <= p.used <= |b| && p.start + room + p.used - p.end <= |b|
  }

  /** The bytes behind the place moved up or down so that `room` bytes are free at its
      start, and `piece` written there. */
  function Placed(b: seq<byte>, p: Place, room: nat, piece: seq<byte>): (b': seq<byte>)
    requires HasRoom(b, p, room) && |piece| <= room
    ensures |b'| == |b|
  {
    Splice(Splice(b, p.start + room, b[p.end..p.used]), p.start, piece)
  }

  /** What the encoder writes into the room reserved for an object. */
  function Kept(o: Obj): (s: seq<byte>)
    ensures |s| <= CalcSize(o)
  {
    Fitting(Pieces(o), CalcSize(o))
  }

  /** How np_set_data takes block b to block b'. When the reserved room does not suffice, the
      tail has been moved, what fits of the object has been written over the bytes in its
      place, and the header has not been written. */
  predicate SetEffect(b: seq<byte>, o: Obj, ret: Ret, b': seq<byte>)
    requires Readable(b)
  {
    var (read, h) := ReadHeader(b);
    if !read.Ok? then ret == read && b' == b
    else
      var objs, total := Contents(b), TotalOf(b);
      && ret == SetRet(objs, total, o)
      && |b'| == |b|
      && b'[total..] == b[total..]
      && (ret.Ok? ==> Holds(b', total, Put(objs, o)))
      && (ret.InsufficientMemory? ==> b' == b)
      && (ret.CouldNotWriteTotalLength? ==>
            && HasRoom(b, PlaceOf(objs, o.key), CalcSize(o))
            && b' == Placed(b, PlaceOf(objs, o.key), CalcSize(o), Kept(o)))
  }

  // ------------------------------------------------- the bytes of a set

  lemma EncodeReplaced(objs: seq<Obj>, i: nat, o: Obj)
    requires i < |objs|
    ensures EncodeAll(objs[i := o]) == EncodeAll(objs[..i]) + (EncodeObject(o) + EncodeAll(objs[i + 1..]))
  {
    var after := objs[i := o];
    EncodeCut(after, i);
    EncodeFirst(after[i..]);
    assert after[..i] == objs[..i];
    assert after[i..][1..] == objs[i + 1..];
  }

  lemma EncodeAppended(objs: seq<Obj>, o: Obj)
    ensures EncodeAll(objs + [o]) == EncodeAll(objs) + EncodeObject(o)
  {
    EncodeCut(objs + [o], |objs|);
    FlattenOne(EncodeObject(o));
    assert (objs + [o])[..|objs|] == objs;
    assert (objs + [o])[|objs|..] == [o];
    assert Encodings([o]) == [EncodeObject(o)];
  }

  lemma UsedAfterPut(objs: seq<Obj>, o: Obj)
    ensures Used(Put(objs, o)) == Used(objs) - OldSize(objs, o.key) + ObjectSize(o)
    ensures |Put(objs, o)| == if Has(objs, o.key) then |objs| else |objs| + 1
  {
    var i := Find(objs, o.key);
    if i < |objs| {
      EncodeReplaced(objs, i, o);
      EncodeReplaced(objs, i, objs[i]);
      assert objs[i := objs[i]] == objs;
    } else {
      EncodeAppended(objs, o);
    }
  }

  /** The place of a key and the bytes around it. */
  lemma AroundPlace(b: seq<byte>, objs: seq<Obj>, key: Key)
    requires Body(b, objs)
    ensures var p := PlaceOf(objs, key);
            && HEADER_SIZE <= p.start <= p.end <= p.used == Used(objs) <= |b|
            && p.end - p.start == OldSize(objs, key)
            && b[HEADER_SIZE..p.start] == EncodeAll(objs[..Find(objs, key)])
            && b[p.end..p.used] == (if Has(objs, key) then EncodeAll(objs[Find(objs, key) + 1..]) else [])
  {
    var i := Find(objs, key);
    if i < |objs| {
      BytesAtBoundary(b, objs, i);
      BytesAtBoundary(b, objs, i + 1);
      OffsetNext(objs, i);
    } else {
      assert objs[..i] == objs;
    }
  }

  lemma EncodePut(objs: seq<Obj>, o: Obj)
    ensures EncodeAll(Put(objs, o))
         == EncodeAll(objs[..Find(objs, o.key)])
            + (EncodeObject(o) + (if Has(objs, o.key) then EncodeAll(objs[Find(objs, o.key) + 1..]) else []))
  {
    var i := Find(objs, o.key);
    if i < |objs| {
      EncodeReplaced(objs, i, o);
    } else {
      EncodeAppended(objs, o);
      assert objs[..i] == objs;
      assert EncodeObject(o) + [] == EncodeObject(o);
    }
  }

  /** A piece that fills its room exactly: what is in front stays, what is behind follows. */
  lemma PlacedBytes(b: seq<byte>, p: Place, piece: seq<byte>)
    requires HasRoom(b, p, |piece|)
    ensures Placed(b, p, |piece|, piece)[HEADER_SIZE..p.start + |piece| + p.used - p.end]
         == b[HEADER_SIZE..p.start] + (piece + b[p.end..p.used])
  {
    SpliceTwo(b, HEADER_SIZE, p.start, piece, b[p.end..p.used]);
  }

  lemma PlacedBody(b: seq<byte>, objs: seq<Obj>, o: Obj)
    requires Body(b, objs) && HasRoom(b, PlaceOf(objs, o.key), ObjectSize(o))
    ensures Body(Placed(b, PlaceOf(objs, o.key), ObjectSize(o), EncodeObject(o)), Put(objs, o))
  {
    hide EncodeAll, EncodeObject, Placed, Put, PlaceOf;
    AroundPlace(b, objs, o.key);
    PlacedBytes(b, PlaceOf(objs, o.key), EncodeObject(o));
    EncodePut(objs, o);
    UsedAfterPut(objs, o);
  }

  /** Writing the header over a body that is in place completes a block. */
  lemma HeaderCompletes(b: seq<byte>, total: nat, objs: seq<Obj>)
    requires AllStorable(objs) && DistinctKeys(objs) && |objs| <= MAX_OBJECTS
    requires Used(objs) <= total <= |b| && total < 0x1_0000_0000
    requires Body(b, objs)
    ensures Holds(Splice(b, 0, EncodeHeader(Header(total, Used(objs), |objs|))), total, objs)
  {
    hide EncodeHeader, EncodeAll, Splice;
    var header := EncodeHeader(Header(total, Used(objs), |objs|));
    SpliceInFront(b, header, Used(objs));
  }

  lemma SpliceInFront(b: seq<byte>, s: seq<byte>, hi: nat)
    requires |s| <= hi <= |b|
    ensures var b' := Splice(b, 0, s); b'[..|s|] == s && b'[|s|..hi] == b[|s|..hi]
  {
  }

  lemma PlacedKeepsTail(b: seq<byte>, p: Place, room: nat, piece: seq<byte>, total: nat)
    requires HasRoom(b, p, room) && |piece| <= room
    requires p.start + room + p.used - p.end <= total <= |b|
    ensures Placed(b, p, room, piece)[total..] == b[total..]
  {
    var moved := b[p.end..p.used];
    SpliceKeepsTail(b, p.start + room, moved, total);
    SpliceKeepsTail(Splice(b, p.start + room, moved), p.start, piece, total);
  }

  /** A set with enough room writes inside the block's capacity. */
  lemma RoomForSet(b: seq<byte>, total: nat, objs: seq<Obj>, o: Obj)
    requires Body(b, objs) && Used(objs) <= total <= |b| && Fits(objs, total, o)
    ensures var p := PlaceOf(objs, o.key);
            HasRoom(b, p, CalcSize(o)) && p.start + CalcSize(o) + p.used - p.end <= total
  {
    hide EncodeAll, EncodeObject, CalcSize, PlaceOf;
    AroundPlace(b, objs, o.key);
  }

  /** The block a successful set leaves behind holds the new contents. */
  lemma StoredHolds(b: seq<byte>, total: nat, objs: seq<Obj>, o: Obj)
    requires Holds(b, total, objs) && Fits(objs, total, o) && Storable(o)
    requires |objs| < MAX_OBJECTS || Has(objs, o.key)
    ensures CalcSize(o) == |EncodeObject(o)|
    ensures HasRoom(b, PlaceOf(objs, o.key), CalcSize(o))
    ensures Holds(Splice(Placed(b, PlaceOf(objs, o.key), CalcSize(o), EncodeObject(o)), 0,
                         EncodeHeader(Header(total, Used(Put(objs, o)), |Put(objs, o)|))),
                  total, Put(objs, o))
  {
    hide EncodeAll, EncodeObject, EncodeHeader, CalcSize, PlaceOf, Placed, Splice;
    CalcSizeAgainstEncoding(o);
    RoomForSet(b, total, objs, o);
    PutKeepsInvariants(objs, o);
    UsedAfterPut(objs, o);
    PlacedBody(b, objs, o);
    HeaderCompletes(Placed(b, PlaceOf(objs, o.key), CalcSize(o), EncodeObject(o)), total, Put(objs, o));
  }

  // ------------------------------------------------------------ operations

  method Write(block: array<byte>, at: nat, s: seq<byte>)
    requires at + |s| <= block.Length
    modifies block
    ensures block[..] == Splice(old(block[..]), at, s)
  {
    for i := 0 to |s|
      invariant block[..at] == old(block[..at]) && block[at + i..] == old(block[at + i..])
      invariant block[at..at + i] == s[..i]
    {
      block[at + i] := s[i];
    }
  }

  method MemMove(block: array<byte>, to: nat, from: nat, n: nat)
    requires to + n <= block.Length && from + n <= block.Length
    modifies block
    ensures block[..] == Splice(old(block[..]), to, old(block[from..from + n]))
  {
    var moved := block[from..from + n];
    Write(block, to, moved);
  }

  /** np_init_datablock on the first `length` bytes. A block too short for a header is refused. */
  method InitDatablock(block: array<byte>, length: nat) returns (ret: Ret)
    requires length <= block.Length && length < 0x1_0000_0000
    modifies block
    ensures ret == if length < HEADER_SIZE then InvalidStructure else Ok
    ensures ret.Ok? ==> Holds(block[..], length, [])
    ensures block[length..] == old(block[length..])
  {
    Write(block, 0, Zeros(length));
    ghost var b := block[..];
    SpliceKeepsTail(old(block[..]), 0, Zeros(length), length);
    if length < HEADER_SIZE {
      return InvalidStructure;
    }
    ghost var header := EncodeHeader(Header(length, HEADER_SIZE, 0));
    Write(block, 0, EncodeHeader(Header(length, HEADER_SIZE, 0)));
    SpliceKeepsTail(b, 0, header, length);
    assert Used([]) == HEADER_SIZE;
    HeaderCompletes(b, length, []);
    return Ok;
  }

  /** What the cursor of a walk over the objects finds, one object at a time. */
  lemma WalkStep(b: seq<byte>, total: nat, objs: seq<Obj>, i: nat, limit: nat)
    requires Holds(b, total, objs) && i < |objs| && Used(objs) <= limit <= |b|
    ensures Offset(objs, i) <= limit
    ensures ReadObject(b[Offset(objs, i)..limit]).Read?
    ensures var r := ReadObject(b[Offset(objs, i)..limit]);
            r.item == objs[i] && Offset(objs, i + 1) == Offset(objs, i) + r.size
  {
    hide EncodeAll, EncodeObject, EncodeHeader, ReadObject;
    ReadAtBoundary(b, objs, i, limit);
    OffsetNext(objs, i);
  }

  lemma FirstOffset(objs: seq<Obj>)
    ensures Offset(objs, 0) == HEADER_SIZE
  {
    assert objs[..0] == [];
  }

  /** One step of a walk through the bytes from `start` to `limit`, k objects in. */
  lemma ParseStep(b: seq<byte>, start: nat, limit: nat, objs: seq<Obj>, k: nat, goal: nat)
    requires start <= limit <= |b| && k <= |objs| && k < goal && Parse(b[start..limit], goal - k) == objs[k..]
    ensures ReadObject(b[start..limit]).ReadError? ==> k == |objs|
    ensures var r := ReadObject(b[start..limit]);
            r.Read? ==>
              && start < start + r.size <= limit && k < |objs| && r.item == objs[k]
              && Parse(b[start + r.size..limit], goal - (k + 1)) == objs[k + 1..]
  {
    hide ReadObject;
    var s := b[start..limit];
    var r := ReadObject(s);
    if r.Read? {
      assert s[r.size..] == b[start + r.size..limit];
      assert objs[k..][1..] == objs[k + 1..];
    }
  }

  lemma LimitIsUsed(b: seq<byte>)
    requires WellFormed(b)
    ensures Limit(b, HEADER_SIZE, UsedOf(b)) == UsedOf(b)
  {
    hide EncodeHeader, Parse, ReadHeader;
    HeaderOf(b, TotalOf(b), Contents(b));
  }

  lemma WalkStepUsed(b: seq<byte>, i: nat)
    requires WellFormed(b) && i < |Contents(b)|
    ensures Offset(Contents(b), i) <= UsedOf(b) <= |b|
    ensures var r := ReadObject(b[Offset(Contents(b), i)..UsedOf(b)]);
            r.Read? && Offset(Contents(b), i + 1) == Offset(Contents(b), i) + r.size
  {
    hide EncodeHeader, Parse, ReadHeader, ReadObject, Offset;
    HeaderOf(b, TotalOf(b), Contents(b));
    WalkStep(b, TotalOf(b), Contents(b), i, UsedOf(b));
  }

  /** np_serializer_search_object: the object with this key and where it lies. */
  method SearchObject(block: array<byte>, key: Key) returns (found: bool, start: nat, end: nat, obj: Obj)
    requires Searchable(block[..], key)
    ensures found == Has(Contents(block[..]), key)
    ensures found ==> obj == Contents(block[..])[Find(Contents(block[..]), key)]
    ensures found && WellFormed(block[..]) ==>
              var objs := Contents(block[..]);
              start == Offset(objs, Find(objs, key)) && end == Offset(objs, Find(objs, key) + 1)
  {
    hide ReadHeader, ReadObject, Parse, Offset, Used, EncodeHeader, Encodings, EncodeAll, Body, Storable, DistinctKeys;
    hide Limit, Holds, WellFormed;
    var (read, h) := ReadHeader(block[..]);
    ghost var b, objs, goal, k := block[..], Contents(block[..]), GoalOf(block[..]), 0;
    FirstOffset(objs);
    var objectsRead: uint16 := 0;
    start, end, obj := HEADER_SIZE, HEADER_SIZE, Obj([], Bin([]));
    var limit := Limit(block[..], HEADER_SIZE, h.used);
    if WellFormed(b) {
      LimitIsUsed(b);
    }
    while objectsRead < h.count
      invariant k <= |objs| && k <= goal && (h.count <= MAX_OBJECTS ==> objectsRead == k)
      invariant start <= limit && Parse(b[start..limit], goal - k) == objs[k..]
      invariant WellFormed(b) ==> start == Offset(objs, k)
      invariant forall j | 0 <= j < k :: objs[j].key != key
      decreases limit - start
    {
      ParseStep(b, start, limit, objs, k, goal);
      var r := ReadObject(block[..][start..limit]);
      if WellFormed(b) {
        WalkStepUsed(b, k);
      }
      end, obj := start + r.size, r.item;
      if obj.key == key {
        return true, start, end, obj;
      }
      objectsRead := Next(objectsRead);
      start := end;
      k := k + 1;
    }
    found := false;
  }

  /** Every object takes at least two bytes. */
  lemma {:induction false} ObjectsTakeRoom(objs: seq<Obj>)
    ensures |EncodeAll(objs)| >= 2 * |objs|
  {
    hide EncodeObject;
    if objs != [] {
      EncodeFirst(objs);
      ObjectsTakeRoom(objs[1..]);
    }
  }

  lemma FewObjects(b: seq<byte>)
    requires Readable(b) && |b| == ATTRIBUTES_SIZE
    ensures 2 * |Contents(b)| <= ATTRIBUTES_SIZE
  {
    hide ReadHeader, EncodeAll, Parse, EncodeHeader;
    if ReadHeader(b).0.Ok? {
      ObjectsTakeRoom(Contents(b));
    } else {
      UnreadableIsEmpty(b);
    }
  }

  /** np_serializer_write_object into `room` bytes: once an addition does not fit, nothing
      more is written and the encoder reports an error. */
  method WriteObject(block: array<byte>, at: nat, room: nat, pieces: seq<seq<byte>>) returns (fits: bool)
    requires at + room <= block.Length
    modifies block
    ensures block[..] == Splice(old(block[..]), at, Fitting(pieces, room))
    ensures fits == (|Flatten(pieces)| <= room)
  {
    hide Splice;
    ghost var b, whole := block[..], Fitting(pieces, room);
    var written := 0;
    fits := true;
    assert pieces[0..] == pieces;
    SpliceNothing(b, at);
    for i := 0 to |pieces|
      invariant 0 <= written <= |whole| && block[..] == Splice(b, at, whole[..written])
      invariant fits ==> whole[written..] == Fitting(pieces[i..], room - written)
      invariant fits ==> |Flatten(pieces)| == written + |Flatten(pieces[i..])|
      invariant !fits ==> written == |whole| && |Flatten(pieces)| > room
    {
      assert pieces[i..][1..] == pieces[i + 1..];
      if fits {
        if |pieces[i]| <= room - written {
          assert pieces[i] == whole[written..][..|pieces[i]|];
          assert whole[written + |pieces[i]|..] == whole[written..][|pieces[i]|..];
          SpliceMore(b, at, whole, written, |pieces[i]|);
          Write(block, at + written, pieces[i]);
          written := written + |pieces[i]|;
        } else {
          fits := false;
        }
      }
    }
    assert pieces[|pieces|..] == [];
    assert whole[..written] == whole;
  }

  lemma SpliceNothing(b: seq<byte>, at: nat)
    requires at <= |b|
    ensures Splice(b, at, []) == b
  {
  }

  lemma SpliceMore(b: seq<byte>, at: nat, s: seq<byte>, n: nat, m: nat)
    requires n + m <= |s| && at + |s| <= |b|
    ensures Splice(Splice(b, at, s[..n]), at + n, s[n..n + m]) == Splice(b, at, s[..n + m])
    ensures s[n..n + m] == s[n..][..m]
  {
  }

  /** The writing half of np_set_data, once the room has been checked. */
  method Store(block: array<byte>, h: Header, found: bool, p: Place, pieces: seq<seq<byte>>, newSize: nat)
      returns (ret: Ret)
    requires HasRoom(block[..], p, newSize) && p.used == h.used
    requires if found then h.count > 0 else p.start == p.used
    modifies block
    ensures ret == var size := |Flatten(pieces)|;
                   if size > newSize then CouldNotWriteTotalLength else if size < newSize then AssertFailed else Ok
    ensures !ret.Ok? ==> block[..] == Placed(old(block[..]), p, newSize, Fitting(pieces, newSize))
    ensures ret.Ok? ==>
              block[..] == Splice(Placed(old(block[..]), p, newSize, Flatten(pieces)), 0,
                                  EncodeHeader(Header(h.total, h.used + newSize - (p.end - p.start),
                                                      if found then h.count else h.count + 1)))
  {
    hide EncodeHeader, Splice, Fitting;
    ghost var b := block[..];
    var count := h.count;
    if found {
      MemMove(block, p.start + newSize, p.end, h.used - p.end);
      count := count - 1;
    }
    MovedBytes(b, p, newSize, found);
    assert block[..] == Splice(b, p.start + newSize, b[p.end..p.used]);
    var fits := WriteObject(block, p.start, newSize, pieces);
    if !fits {
      return CouldNotWriteTotalLength;
    }
    EverythingFits(pieces, newSize);
    if |Flatten(pieces)| != newSize {
      return AssertFailed;
    }
    count := count + 1;
    Write(block, 0, EncodeHeader(Header(h.total, h.used + newSize - (p.end - p.start), count)));
    return Ok;
  }

  /** Behind the last object there is nothing to move. */
  lemma MovedBytes(b: seq<byte>, p: Place, room: nat, found: bool)
    requires HasRoom(b, p, room)
    requires !found ==> p.start == p.used
    ensures !found ==> Splice(b, p.start + room, b[p.end..p.used]) == b
  {
  }

  /** The four outcomes of a set, from what its writing half did. */
  lemma SetEstablished(b: seq<byte>, o: Obj, ret: Ret, b': seq<byte>)
    requires Readable(b) && ReadHeader(b).0.Ok? && Representable(o)
    requires |Contents(b)| < MAX_OBJECTS || Has(Contents(b), o.key)
    requires Fits(Contents(b), TotalOf(b), o)
    requires HasRoom(b, PlaceOf(Contents(b), o.key), CalcSize(o))
    requires ret == SetRet(Contents(b), TotalOf(b), o)
    requires !ret.Ok? ==> b' == Placed(b, PlaceOf(Contents(b), o.key), CalcSize(o), Kept(o))
    requires ret.Ok? ==>
               && |EncodeObject(o)| <= CalcSize(o)
               && var objs := Put(Contents(b), o);
                  b' == Splice(Placed(b, PlaceOf(Contents(b), o.key), CalcSize(o), EncodeObject(o)), 0,
                               EncodeHeader(Header(TotalOf(b), Used(objs), |objs|)))
    ensures SetEffect(b, o, ret, b')
  {
    hide EncodeAll, EncodeObject, EncodeHeader, ReadHeader, CalcSize, PlaceOf, Placed, Splice, Parse, Kept;
    var objs, total, p := Contents(b), TotalOf(b), PlaceOf(Contents(b), o.key);
    RoomForSet(b, total, objs, o);
    if ret.Ok? {
      StoredHolds(b, total, objs, o);
      PlacedKeepsTail(b, p, CalcSize(o), EncodeObject(o), total);
      SpliceKeepsTail(Placed(b, p, CalcSize(o), EncodeObject(o)), 0,
                      EncodeHeader(Header(total, Used(Put(objs, o)), |Put(objs, o)|)), total);
    } else {
      PlacedKeepsTail(b, p, CalcSize(o), Kept(o), total);
    }
  }

  lemma PlaceBounds(b: seq<byte>, total: nat, objs: seq<Obj>, key: Key)
    requires Holds(b, total, objs)
    ensures var p, i := PlaceOf(objs, key), Find(objs, key);
            && HEADER_SIZE <= p.start <= p.end <= p.used == Used(objs) <= total
            && p.end - p.start == OldSize(objs, key)
            && (i < |objs| ==> OldSize(objs, key) == CalcSize(objs[i]))
            && (i >= |objs| ==> OldSize(objs, key) == 0)
  {
    hide EncodeAll, EncodeObject, EncodeHeader, CalcSize;
    AroundPlace(b, objs, key);
    if Find(objs, key) < |objs| {
      CalcSizeAgainstEncoding(objs[Find(objs, key)]);
    }
  }

  lemma SetRefused(b: seq<byte>, o: Obj)
    requires Readable(b) && (ReadHeader(b).0.Ok? ==> !Fits(Contents(b), TotalOf(b), o))
    ensures SetEffect(b, o, if ReadHeader(b).0.Ok? then InsufficientMemory else ReadHeader(b).0, b)
  {
    hide ReadHeader, Parse, Holds;
  }

  /** np_set_data: overwrite the object with the key in place, shifting what is behind it,
      or append it. A value of 2 GiB or more in a block as large would overflow the
      source's int32_t distance. */
  method SetData(block: array<byte>, o: Obj) returns (ret: Ret)
    requires Readable(block[..]) && Representable(o)
    requires |Contents(block[..])| < MAX_OBJECTS || Has(Contents(block[..]), o.key)
    requires TotalOf(block[..]) < 0x8000_0000 || CalcSize(o) < 0x8000_0000
    modifies block
    ensures SetEffect(old(block[..]), o, ret, block[..])
  {
    hide EncodeAll, EncodeObject, EncodeHeader, ReadHeader, CalcSize, Placed, Splice, Parse, SetEffect;
    hide Offset, Used, Body, Put, DistinctKeys, Find, Slack, Fitting, Searchable, Pieces;
    var (read, h) := ReadHeader(block[..]);
    ghost var b, objs := block[..], Contents(block[..]);
    if !read.Ok? {
      SetRefused(b, o);
      return read;
    }
    HeaderOf(b, h.total, objs);
    PlaceBounds(b, h.total, objs, o.key);
    ReadableIsSearchable(b, o.key);
    var found, start, end, previous := SearchObject(block, o.key);
    var oldSize, newSize := 0, CalcSize(o);
    var p := Place(h.used, h.used, h.used);
    if found {
      oldSize := CalcSize(previous);
      p := Place(start, end, h.used);
    }
    if newSize > h.total - h.used + oldSize {
      SetRefused(b, o);
      return InsufficientMemory;
    }
    RoomForSet(b, h.total, objs, o);
    PiecesMakeTheObject(o);
    ret := Store(block, h, found, p, Pieces(o), newSize);
    UsedAfterPut(objs, o);
    CalcSizeAgainstEncoding(o);
    SetEstablished(b, o, ret, block[..]);
  }

  /** np_get_data: an unreadable header counts as an empty block. */
  method GetData(block: array<byte>, key: Key) returns (ret: Ret, value: Option<Value>)
    requires Searchable(block[..], key)
    ensures value == Lookup(Contents(block[..]), key)
    ensures ret == if value.Some? then Ok else KeyNotFound
  {
    hide ReadHeader, Parse, Holds;
    var found, _, _, obj := SearchObject(block, key);
    if found {
      return Ok, Some(obj.value);
    }
    return KeyNotFound, None;
  }

  /** np_get_data_size. */
  method GetDataSize(block: array<byte>) returns (ret: Ret, size: nat)
    requires block.Length >= HEADER_SIZE
    ensures ret == ReadHeader(block[..]).0
    ensures size == if ret.Ok? then UsedOf(block[..]) else 0
    ensures WellFormed(block[..]) ==> ret.Ok? && size == Used(Contents(block[..]))
  {
    hide ReadHeader, Parse;
    var (read, h) := ReadHeader(block[..]);
    if WellFormed(block[..]) {
      HeaderOf(block[..], h.total, Contents(block[..]));
    }
    return read, if read.Ok? then h.used else 0;
  }

  /** np_get_object_count. */
  method GetObjectCount(block: array<byte>) returns (ret: Ret, count: nat)
    requires block.Length >= HEADER_SIZE
    ensures ret == ReadHeader(block[..]).0
    ensures WellFormed(block[..]) ==> ret.Ok? && count == |Contents(block[..])|
    ensures !ret.Ok? ==> count == 0
  {
    hide ReadHeader, Parse;
    var (read, h) := ReadHeader(block[..]);
    if WellFormed(block[..]) {
      HeaderOf(block[..], h.total, Contents(block[..]));
    }
    return read, h.count;
  }

  // ------------------------------------------------------------- iteration

  /** A callback with its user data: the new user data and whether to go on. */
  type Callback<!S> = (S, Obj) -> (S, bool)

  /** What np_iterate_data does to the user data, how often it calls, and whether a call refused. */
  datatype Fed<S> = Fed(state: S, calls: nat, refused: bool)

  function Feed<S>(cb: Callback<S>, s: S, objs: seq<Obj>): Fed<S> {
    if objs == [] then Fed(s, 0, false)
    else
      var (s', go) := cb(s, objs[0]);
      if !go then Fed(s', 1, true)
      else var r := Feed(cb, s', objs[1..]); Fed(r.state, r.calls + 1, r.refused)
  }

  /** The user data after the first k objects, all of them accepted. */
  function StateAt<S>(cb: Callback<S>, s: S, objs: seq<Obj>, k: nat): S
    requires k <= |objs|
  {
    if k == 0 then s else StateAt(cb, cb(s, objs[0]).0, objs[1..], k - 1)
  }

  /** Every object up to the first refusal is fed exactly once, in layout order. */
  lemma {:induction false} FeedMeaning<S>(cb: Callback<S>, s: S, objs: seq<Obj>)
    ensures var r := Feed(cb, s, objs);
            && r.calls <= |objs|
            && r.state == StateAt(cb, s, objs, r.calls)
            && (r.refused ==> r.calls > 0 && !cb(StateAt(cb, s, objs, r.calls - 1), objs[r.calls - 1]).1)
            && (!r.refused ==> r.calls == |objs|)
            && forall k | 0 <= k < r.calls - (if r.refused then 1 else 0) :: cb(StateAt(cb, s, objs, k), objs[k]).1
  {
    if objs != [] {
      var (s', go) := cb(s, objs[0]);
      if go {
        FeedMeaning(cb, s', objs[1..]);
        var r, r' := Feed(cb, s, objs), Feed(cb, s', objs[1..]);
        forall k | 0 <= k < r.calls - (if r.refused then 1 else 0)
          ensures cb(StateAt(cb, s, objs, k), objs[k]).1
        {
          if k > 0 {
            assert cb(StateAt(cb, s', objs[1..], k - 1), objs[1..][k - 1]).1;
          }
        }
      }
    }
  }

  /** The objects an iteration meets. The first is read with a NULL limit, the later ones
      with one that lies a header's length behind the used bytes. */
  function IteratedFrom(b: seq<byte>, used: nat, start: nat, limit: nat, n: nat): (objs: seq<Obj>)
    requires start <= |b|
    ensures |objs| <= n && |objs| <= |b| - start
    decreases n
  {
    if n == 0 then []
    else
      match ReadObject(b[start..Limit(b, start, limit)])
      case Read(o, size) => [o] + IteratedFrom(b, used, start + size, used + HEADER_SIZE, n - 1)
      case ReadError(_) => []
  }

  function Iterated(b: seq<byte>): seq<Obj>
    requires |b| >= HEADER_SIZE
  {
    IteratedFrom(b, UsedOf(b), HEADER_SIZE, 0, GoalOf(b))
  }

  lemma {:induction false} IteratedAtBoundary(b: seq<byte>, total: nat, objs: seq<Obj>, i: nat, limit: nat)
    requires Holds(b, total, objs) && i <= |objs|
    requires limit == if i == 0 then 0 else Used(objs) + HEADER_SIZE
    ensures Offset(objs, i) <= |b| && IteratedFrom(b, Used(objs), Offset(objs, i), limit, |objs| - i) == objs[i..]
    decreases |objs| - i
  {
    hide Offset, Used, ReadObject, EncodeHeader, EncodeAll;
    BytesAtBoundary(b, objs, i);
    if i < |objs| {
      var l := Limit(b, Offset(objs, i), limit);
      WalkStep(b, total, objs, i, l);
      IteratedAtBoundary(b, total, objs, i + 1, Used(objs) + HEADER_SIZE);
      assert objs[i..] == [objs[i]] + objs[i + 1..];
    }
  }

  lemma IteratedHeld(b: seq<byte>, total: nat, objs: seq<Obj>)
    requires Holds(b, total, objs)
    ensures |b| >= HEADER_SIZE && Iterated(b) == objs && |objs| == GoalOf(b)
  {
    hide ReadHeader, IteratedFrom, Offset, Used, Storable, DistinctKeys, Body, EncodeHeader;
    HeaderOf(b, total, objs);
    FirstOffset(objs);
    IteratedAtBoundary(b, total, objs, 0, 0);
    assert objs[0..] == objs;
  }

  /** On a well-formed block the limits make no difference: the objects delimit themselves. */
  lemma IteratedIsContents(b: seq<byte>)
    requires Readable(b)
    ensures Iterated(b) == Contents(b) && (ReadHeader(b).0.Ok? ==> |Iterated(b)| == GoalOf(b))
  {
    hide ReadHeader, Parse, Holds, Contents, GoalOf;
    if ReadHeader(b).0.Ok? {
      IteratedHeld(b, TotalOf(b), Contents(b));
    } else {
      UnreadableIsEmpty(b);
    }
  }

  lemma NothingIterated(b: seq<byte>)
    requires |b| >= HEADER_SIZE && !ReadHeader(b).0.Ok?
    ensures Iterated(b) == []
  {
    hide ReadHeader;
  }

  lemma IterateStep(b: seq<byte>, used: nat, start: nat, limit: nat, objs: seq<Obj>, k: nat, goal: nat)
    requires start <= |b| && k <= |objs| && k < goal && IteratedFrom(b, used, start, limit, goal - k) == objs[k..]
    ensures var r := ReadObject(b[start..Limit(b, start, limit)]);
            if r.Read? then
              && start + r.size <= |b| && k < |objs| && r.item == objs[k]
              && IteratedFrom(b, used, start + r.size, used + HEADER_SIZE, goal - (k + 1)) == objs[k + 1..]
            else k == |objs|
  {
    hide ReadObject;
    if k < |objs| {
      assert objs[k..][1..] == objs[k + 1..];
    }
  }

  lemma FeedNext<S>(cb: Callback<S>, s: S, objs: seq<Obj>, k: nat)
    requires k < |objs|
    ensures var (s', go) := cb(s, objs[k]);
            var r := Feed(cb, s, objs[k..]);
            if go then r.state == Feed(cb, s', objs[k + 1..]).state && r.refused == Feed(cb, s', objs[k + 1..]).refused
            else r.state == s' && r.refused
  {
    assert objs[k..][1..] == objs[k + 1..];
  }

  lemma FeedNothing<S>(cb: Callback<S>, s: S, objs: seq<Obj>)
    ensures objs == [] ==> Feed(cb, s, objs) == Fed(s, 0, false)
  {
  }

  /** np_iterate_data. */
  method IterateData<S>(block: array<byte>, cb: Callback<S>, s0: S) returns (ret: Ret, s: S)
    requires block.Length >= HEADER_SIZE
    ensures var (read, h) := ReadHeader(block[..]);
            var objs := Iterated(block[..]);
            var fed := Feed(cb, s0, objs);
            && s == fed.state
            && ret == if !read.Ok? then read
                      else if fed.refused then InvalidArguments
                      else if |objs| == GoalOf(block[..]) then Ok else InvalidStructure
  {
    hide ReadHeader, ReadObject, IteratedFrom, Feed, Limit;
    var (read, h) := ReadHeader(block[..]);
    ghost var b, objs, goal, k := block[..], Iterated(block[..]), GoalOf(block[..]), 0;
    s, ret := s0, read;
    if !read.Ok? {
      NothingIterated(b);
      FeedNothing(cb, s, objs);
      return;
    }
    var objectCount: uint16 := 0;
    var bufferStart, bufferEnd, byteCount := HEADER_SIZE, 0, 0;
    assert objs[0..] == objs;
    while objectCount < h.count
      invariant k <= goal && k <= |objs| && (h.count <= MAX_OBJECTS ==> objectCount == k) && ret.Ok?
      invariant bufferStart == HEADER_SIZE + byteCount <= block.Length
      invariant bufferEnd >= 0 && IteratedFrom(b, h.used, bufferStart, bufferEnd, goal - k) == objs[k..]
      invariant var r := Feed(cb, s0, objs);
                var r' := Feed(cb, s, objs[k..]);
                r.state == r'.state && r.refused == r'.refused
      decreases block.Length - bufferStart
    {
      IterateStep(b, h.used, bufferStart, bufferEnd, objs, k, goal);
      var r := ReadObject(block[..][bufferStart..Limit(block[..], bufferStart, bufferEnd)]);
      if r.ReadError? {
        FeedNothing(cb, s, objs[k..]);
        return InvalidStructure, s;
      }
      FeedNext(cb, s, objs, k);
      var (s', go) := cb(s, r.item);
      s := s';
      if !go {
        return InvalidArguments, s;
      }
      byteCount := byteCount + r.size;
      bufferStart := bufferStart + r.size;
      bufferEnd := bufferStart + (h.used - byteCount);
      objectCount := Next(objectCount);
      k := k + 1;
    }
    FeedNothing(cb, s, objs[k..]);
  }

  // --------------------------------------------------------------- merging

  /** All of src stored into dest. */
  function PutAll(dest: seq<Obj>, src: seq<Obj>): seq<Obj>
    decreases |src|
  {
    if src == [] then dest else PutAll(Put(dest, src[0]), src[1..])
  }

  /** How many objects of src are stored into dest before one is refused. */
  function Taken(total: nat, dest: seq<Obj>, src: seq<Obj>): (k: nat)
    ensures k <= |src|
    decreases |src|
  {
    if src == [] || !SetRet(dest, total, src[0]).Ok? then 0 else 1 + Taken(total, Put(dest, src[0]), src[1..])
  }

  lemma {:induction false} PutAllBounds(dest: seq<Obj>, src: seq<Obj>)
    ensures |dest| <= |PutAll(dest, src)| <= |dest| + |src|
    decreases |src|
  {
    if src != [] {
      PutAllBounds(Put(dest, src[0]), src[1..]);
    }
  }

  lemma PutNext(dest: seq<Obj>, src: seq<Obj>)
    requires src != []
    ensures PutAll(dest, src) == PutAll(Put(dest, src[0]), src[1..])
    ensures Has(dest, src[0].key) || |dest| < |PutAll(dest, src)|
  {
    PutAllBounds(Put(dest, src[0]), src[1..]);
  }

  lemma {:induction false} PutOneMore(dest: seq<Obj>, src: seq<Obj>, k: nat)
    requires k < |src|
    ensures PutAll(dest, src[..k + 1]) == Put(PutAll(dest, src[..k]), src[k])
    decreases k
  {
    hide Put;
    assert src[..k + 1] != [] && src[..k + 1][1..] == src[1..][..k];
    if k > 0 {
      PutOneMore(Put(dest, src[0]), src[1..], k - 1);
      assert src[..k][1..] == src[1..][..k - 1];
    } else {
      assert src[1..][..0] == [];
    }
  }

  /** The outcome of storing src into a well-formed destination: all of it, or up to the
      first object that is refused and with what that set left behind. */
  ghost predicate MergedInto(dest: seq<byte>, src: seq<Obj>, complete: bool, ret: Ret, dest': seq<byte>)
    requires |dest| >= HEADER_SIZE
  {
    var total, k := TotalOf(dest), Taken(TotalOf(dest), Contents(dest), src);
    var objs := PutAll(Contents(dest), src[..k]);
    && |dest'| == |dest|
    && if k == |src| then ret == (if complete then Ok else InvalidStructure) && Holds(dest', total, objs)
       else ret == SetRet(objs, total, src[k]) && RefusedSet(|dest|, total, objs, src[k], ret, dest')
  }

  ghost predicate RefusedSet(size: nat, total: nat, objs: seq<Obj>, o: Obj, ret: Ret, dest': seq<byte>) {
    exists d | |d| == size && Holds(d, total, objs) :: Readable(d) && SetEffect(d, o, ret, dest')
  }

  /** What np_merge_data returns and makes of the destination. */
  ghost predicate MergeEffect(dest: seq<byte>, src: seq<byte>, ret: Ret, dest': seq<byte>)
    requires Readable(dest) && |src| >= HEADER_SIZE
  {
    var (readSrc, readDest, objs) := (ReadHeader(src).0, ReadHeader(dest).0, Contents(src));
    if !readSrc.Ok? then ret == readSrc && dest' == dest
    else if !readDest.Ok? && objs != [] then ret == readDest && dest' == dest
    else if !readDest.Ok? then ret == (if GoalOf(src) == 0 then Ok else InvalidStructure) && dest' == dest
    else MergedInto(dest, objs, |objs| == GoalOf(src), ret, dest')
  }

  lemma StorableIsSmall(o: Obj)
    requires Storable(o)
    ensures CalcSize(o) < 0x8000_0000
  {
  }

  /** A set of a storable object leaves a readable block. */
  lemma SetStorable(b: seq<byte>, o: Obj, ret: Ret, b': seq<byte>)
    requires Readable(b) && Storable(o) && SetEffect(b, o, ret, b')
    ensures Readable(b') && |b'| == |b|
    ensures !ReadHeader(b).0.Ok? ==> ret == ReadHeader(b).0 && b' == b
    ensures ReadHeader(b).0.Ok? ==>
              && ret == SetRet(Contents(b), TotalOf(b), o)
              && Holds(b', TotalOf(b), if ret.Ok? then Put(Contents(b), o) else Contents(b))
              && ReadHeader(b').0.Ok? && TotalOf(b') == TotalOf(b)
              && Contents(b') == if ret.Ok? then Put(Contents(b), o) else Contents(b)
  {
    hide ReadHeader, Parse, EncodeHeader, Used, Body, Placed, Find, CalcSize, Fits;
    if ReadHeader(b).0.Ok? {
      var objs := if ret.Ok? then Put(Contents(b), o) else Contents(b);
      HoldsDetermines(b', TotalOf(b), objs);
      HeaderOf(b', TotalOf(b), objs);
    }
  }

  /** So does any set that reports success. */
  lemma SetSucceeded(b: seq<byte>, o: Obj, ret: Ret, b': seq<byte>)
    requires WellFormed(b) && ReadHeader(b).0.Ok? && SetEffect(b, o, ret, b') && ret.Ok?
    ensures SetRet(Contents(b), TotalOf(b), o).Ok?
    ensures WellFormed(b') && |b'| == |b| && ReadHeader(b').0.Ok? && TotalOf(b') == TotalOf(b)
    ensures Contents(b') == Put(Contents(b), o)
  {
    hide ReadHeader, Parse, EncodeHeader, Used, Body, Placed, Find, CalcSize, Fits;
    HoldsDetermines(b', TotalOf(b), Put(Contents(b), o));
    HeaderOf(b', TotalOf(b), Put(Contents(b), o));
  }

  /** What a merge asks of the objects it reads: that they can be handed to np_set_data. */
  predicate Mergeable(dest: seq<byte>, objs: seq<Obj>)
    requires |dest| >= HEADER_SIZE
  {
    && |PutAll(Contents(dest), objs)| <= MAX_OBJECTS
    && forall i | 0 <= i < |objs| ::
         Representable(objs[i]) && (TotalOf(dest) < 0x8000_0000 || CalcSize(objs[i]) < 0x8000_0000)
  }

  /** np_merge_data: src's objects are stored into dest in layout order, stopping at the
      first that cannot be read or stored. A null src is an error. */
  method MergeData(dest: array<byte>, src: array?<byte>) returns (ret: Ret)
    requires Readable(dest[..])
    requires src != null ==> src != dest && src.Length >= HEADER_SIZE && Mergeable(dest[..], Contents(src[..]))
    modifies dest
    ensures src == null ==> ret.CouldNotReadObject? && dest[..] == old(dest[..])
    ensures src != null ==> MergeEffect(old(dest[..]), src[..], ret, dest[..])
  {
    hide ReadHeader, ReadObject, Parse, SetEffect, SetRet, Put, PutAll, Representable, CalcSize, WellFormed, Find;
    hide MergedSoFar, MergedInto, Limit, Mergeable;
    ret := CouldNotReadObject;
    if src == null {
      return;
    }
    var (read, h) := ReadHeader(src[..]);
    ret := read;
    if !read.Ok? {
      return;
    }
    ghost var b, objs, goal, k, d := src[..], Contents(src[..]), GoalOf(src[..]), 0, dest[..];
    var objectsRead: uint16 := 0;
    var start, limit := HEADER_SIZE, Limit(src[..], HEADER_SIZE, h.used);
    MergeStarts(d, objs);
    while objectsRead < h.count
      invariant k <= goal && k <= |objs| && (h.count <= MAX_OBJECTS ==> objectsRead == k) && ret.Ok? && src[..] == b
      invariant start <= limit && Parse(b[start..limit], goal - k) == objs[k..]
      invariant Readable(dest[..]) && |dest[..]| == |d|
      invariant ReadHeader(d).0.Ok? ==> ReadHeader(dest[..]).0.Ok? && MergedSoFar(d, objs, k, dest[..])
      invariant !ReadHeader(d).0.Ok? ==> dest[..] == d && k == 0
      decreases limit - start
    {
      ParseStep(b, start, limit, objs, k, goal);
      var r := ReadObject(src[..][start..limit]);
      ghost var before := dest[..];
      if r.ReadError? {
        MergeEnds(d, objs, k, before);
        return InvalidStructure;
      }
      MergeGoesOn(d, objs, k, before);
      ret := SetData(dest, r.item);
      if !ret.Ok? {
        MergeStops(d, objs, k, before, ret, dest[..]);
        return;
      }
      MergeStep(d, objs, k, before, dest[..]);
      k := k + 1;
      objectsRead := Next(objectsRead);
      start := start + r.size;
    }
    MergeEnds(d, objs, k, dest[..]);
  }

  /** The destination after the first k objects. */
  ghost predicate MergedSoFar(d: seq<byte>, objs: seq<Obj>, k: nat, dest: seq<byte>)
    requires |d| >= HEADER_SIZE && k <= |objs|
  {
    && |dest| == |d| && WellFormed(dest) && TotalOf(dest) == TotalOf(d)
    && Contents(dest) == PutAll(Contents(d), objs[..k])
    && Taken(TotalOf(d), Contents(d), objs) == k + Taken(TotalOf(d), Contents(dest), objs[k..])
    && PutAll(Contents(dest), objs[k..]) == PutAll(Contents(d), objs)
  }

  lemma MergeStarts(d: seq<byte>, objs: seq<Obj>)
    requires Readable(d)
    ensures ReadHeader(d).0.Ok? ==> MergedSoFar(d, objs, 0, d)
    ensures objs[0..] == objs
  {
    hide ReadHeader, Parse, Holds, Taken;
    assert objs[..0] == [] && objs[0..] == objs;
  }

  lemma MergeGoesOn(d: seq<byte>, objs: seq<Obj>, k: nat, dest: seq<byte>)
    requires |d| >= HEADER_SIZE && Mergeable(d, objs) && k < |objs| && |dest| >= HEADER_SIZE
    requires (ReadHeader(d).0.Ok? && MergedSoFar(d, objs, k, dest)) || (dest == d && k == 0)
    ensures Representable(objs[k]) && (TotalOf(dest) < 0x8000_0000 || CalcSize(objs[k]) < 0x8000_0000)
    ensures |Contents(dest)| < MAX_OBJECTS || Has(Contents(dest), objs[k].key)
  {
    hide ReadHeader, Parse, Representable, CalcSize, WellFormed, PutAll, Find, Taken;
    assert objs[0..] == objs;
    assert objs[k..] != [] && objs[k..][0] == objs[k];
    PutNext(Contents(dest), objs[k..]);
  }

  lemma MergeStep(d: seq<byte>, objs: seq<Obj>, k: nat, before: seq<byte>, dest: seq<byte>)
    requires Readable(d) && k < |objs| && Readable(before) && SetEffect(before, objs[k], Ok, dest)
    requires ReadHeader(d).0.Ok? ==> ReadHeader(before).0.Ok? && MergedSoFar(d, objs, k, before)
    requires !ReadHeader(d).0.Ok? ==> before == d
    ensures ReadHeader(d).0.Ok? && ReadHeader(dest).0.Ok? && MergedSoFar(d, objs, k + 1, dest) && Readable(dest)
  {
    hide ReadHeader, Parse, Holds, SetRet, Put, Find;
    SetSucceeded(before, objs[k], Ok, dest);
    assert objs[k..][0] == objs[k] && objs[k..][1..] == objs[k + 1..];
    PutOneMore(Contents(d), objs, k);
  }

  lemma MergeStops(d: seq<byte>, objs: seq<Obj>, k: nat, before: seq<byte>, ret: Ret, dest: seq<byte>)
    requires Readable(d) && k < |objs| && Readable(before) && |before| == |d| && !ret.Ok?
    requires SetEffect(before, objs[k], ret, dest)
    requires ReadHeader(d).0.Ok? ==> ReadHeader(before).0.Ok? && MergedSoFar(d, objs, k, before)
    requires !ReadHeader(d).0.Ok? ==> before == d && k == 0
    ensures ReadHeader(d).0.Ok? ==> MergedInto(d, objs, true, ret, dest) && MergedInto(d, objs, false, ret, dest)
    ensures !ReadHeader(d).0.Ok? ==> ret == ReadHeader(d).0 && dest == d
  {
    hide ReadHeader, Parse, Holds, SetRet, Put, Find, PutAll, Placed, Fits, CalcSize;
    if ReadHeader(d).0.Ok? {
      assert objs[k..][0] == objs[k];
      assert RefusedSet(|d|, TotalOf(d), Contents(before), objs[k], ret, dest);
    }
  }

  lemma MergeEnds(d: seq<byte>, objs: seq<Obj>, k: nat, dest: seq<byte>)
    requires Readable(d) && k == |objs|
    requires ReadHeader(d).0.Ok? ==> MergedSoFar(d, objs, k, dest)
    ensures ReadHeader(d).0.Ok? ==>
              MergedInto(d, objs, true, Ok, dest) && MergedInto(d, objs, false, InvalidStructure, dest)
  {
    hide ReadHeader, Parse, Holds, PutAll;
    assert objs[..k] == objs && objs[k..] == [];
  }
}
