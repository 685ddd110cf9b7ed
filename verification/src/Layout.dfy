/** What a datablock's bytes mean: a header, then objects back to back, and the map they stand for. */
module Layout {
  import opened Bytes
  import opened KvCodec

  const MAX_OBJECTS := 0xFFFF

  // --------------------------------------------------- lists of objects

  predicate AllStorable(objs: seq<Obj>) {
    forall i | 0 <= i < |objs| :: Storable(objs[i])
  }

  predicate DistinctKeys(objs: seq<Obj>) {
    forall i, j | 0 <= i < j < |objs| :: objs[i].key != objs[j].key
  }

  /** The position of the first object with this key, or |objs|. */
  function Find(objs: seq<Obj>, key: Key): (i: nat)
    ensures i <= |objs|
    ensures i < |objs| ==> objs[i].key == key
    ensures forall j | 0 <= j < i :: objs[j].key != key
  {
    if objs == [] || objs[0].key == key then 0 else 1 + Find(objs[1..], key)
  }

  predicate Has(objs: seq<Obj>, key: Key) {
    Find(objs, key) < |objs|
  }

  function Lookup(objs: seq<Obj>, key: Key): Option<Value> {
    var i := Find(objs, key);
    if i < |objs| then Some(objs[i].value) else None
  }

  /** Storing an object: over the one with the same key, else at the end. */
  function Put(objs: seq<Obj>, o: Obj): seq<Obj> {
    var i := Find(objs, o.key);
    if i < |objs| then objs[i := o] else objs + [o]
  }

  lemma FindUnique(objs: seq<Obj>, key: Key, i: nat)
    requires DistinctKeys(objs) && i < |objs| && objs[i].key == key
    ensures Find(objs, key) == i
  {
  }

  lemma PutKeepsInvariants(objs: seq<Obj>, o: Obj)
    requires DistinctKeys(objs) && AllStorable(objs) && Storable(o)
    ensures DistinctKeys(Put(objs, o)) && AllStorable(Put(objs, o))
  {
  }

  /** Storing changes the answer for its own key and for no other. */
  lemma LookupAfterPut(objs: seq<Obj>, o: Obj, key: Key)
    requires DistinctKeys(objs)
    ensures Lookup(Put(objs, o), key) == if key == o.key then Some(o.value) else Lookup(objs, key)
  {
    var after := Put(objs, o);
    var i := Find(objs, o.key);
    assert after[i] == o;
    assert DistinctKeys(after);
    FindUnique(after, o.key, i);
    if key != o.key {
      var j := Find(objs, key);
      if j < |objs| {
        FindUnique(after, key, j);
      } else if Has(after, key) {
        assert false;
      }
    }
  }

  // ------------------------------------------------------- the byte layout

  function Encodings(objs: seq<Obj>): (r: seq<seq<byte>>) {
    seq(|objs|, i requires 0 <= i < |objs| => EncodeObject(objs[i]))
  }

  function EncodeAll(objs: seq<Obj>): seq<byte> {
    Flatten(Encodings(objs))
  }

  /** The offset of the first byte behind the first i objects. */
  function Offset(objs: seq<Obj>, i: nat): nat
    requires i <= |objs|
  {
    HEADER_SIZE + |EncodeAll(objs[..i])|
  }

  function Used(objs: seq<Obj>): nat
  {
    HEADER_SIZE + |EncodeAll(objs)|
  }

  function ObjectSize(o: Obj): nat
  {
    |EncodeObject(o)|
  }

  lemma EncodeCut(objs: seq<Obj>, i: nat)
    requires i <= |objs|
    ensures EncodeAll(objs) == EncodeAll(objs[..i]) + EncodeAll(objs[i..])
  {
    hide EncodeObject, Flatten;
    var e := Encodings(objs);
    FlattenCut(e, i);
    assert e[..i] == Encodings(objs[..i]);
    assert e[i..] == Encodings(objs[i..]);
  }

  lemma EncodeFirst(objs: seq<Obj>)
    requires objs != []
    ensures EncodeAll(objs) == EncodeObject(objs[0]) + EncodeAll(objs[1..])
  {
    hide EncodeObject;
    var e := Encodings(objs);
    assert e[1..] == Encodings(objs[1..]);
    assert Flatten(e) == e[0] + Flatten(e[1..]);
  }

  lemma OffsetNext(objs: seq<Obj>, i: nat)
    requires i < |objs|
    ensures Offset(objs, i + 1) == Offset(objs, i) + ObjectSize(objs[i])
  {
    hide EncodeObject, Flatten;
    var e := Encodings(objs);
    FlattenNext(e, i);
    assert e[..i] == Encodings(objs[..i]);
    assert e[..i + 1] == Encodings(objs[..i + 1]);
  }

  /** The bytes behind the header are the encodings of objs, in this order. */
  predicate Body(b: seq<byte>, objs: seq<Obj>) {
    Used(objs) <= |b| && b[HEADER_SIZE..Used(objs)] == EncodeAll(objs)
  }

  /** b is a block of capacity `total` that holds exactly objs. */
  predicate Holds(b: seq<byte>, total: nat, objs: seq<Obj>) {
    && AllStorable(objs)
    && DistinctKeys(objs)
    && |objs| <= MAX_OBJECTS
    && Used(objs) <= total <= |b|
    && total < 0x1_0000_0000
    && b[..HEADER_SIZE] == EncodeHeader(Header(total, Used(objs), |objs|))
    && Body(b, objs)
  }

  // -------------------------------------------- recovering it from the bytes

  /** The objects read one after the other, at most n of them. */
  function Parse(s: seq<byte>, n: nat): (objs: seq<Obj>)
    ensures |objs| <= n && |objs| <= |s|
  {
    if n == 0 then []
    else
      match ReadObject(s)
      case Read(o, size) => [o] + Parse(s[size..], n - 1)
      case ReadError(_) => []
  }

  function TotalOf(b: seq<byte>): nat
    requires |b| >= HEADER_SIZE
  {
    ReadHeader(b).1.total
  }

  function UsedOf(b: seq<byte>): nat
    requires |b| >= HEADER_SIZE
  {
    ReadHeader(b).1.used
  }

  function Min(a: nat, b: nat): nat {
    if a <= b then a else b
  }

  /** Where reading from `start` stops. A limit in front of the start is none at all: the
      distance is an unsigned number. Nothing is read behind the block. */
  function Limit(b: seq<byte>, start: nat, limit: nat): (l: nat)
    requires start <= |b|
    ensures start <= l <= |b|
  {
    if limit < start then |b| else Min(limit, |b|)
  }

  /** The bytes a search looks at. */
  function Area(b: seq<byte>): seq<byte>
    requires |b| >= HEADER_SIZE
  {
    b[HEADER_SIZE..Limit(b, HEADER_SIZE, UsedOf(b))]
  }

  /** How many objects a walk goes for. Its counter has 16 bits and never gets to a larger
      number: then it goes for more than there can be. */
  function Goal(count: nat, size: nat): nat {
    if count <= MAX_OBJECTS then count else size + 1
  }

  function GoalOf(b: seq<byte>): nat
    requires |b| >= HEADER_SIZE
  {
    Goal(ReadHeader(b).1.count, |b|)
  }

  /** The objects a walk over the block meets before it ends or finds one unreadable. */
  function Contents(b: seq<byte>): seq<Obj>
    requires |b| >= HEADER_SIZE
  {
    Parse(Area(b), GoalOf(b))
  }

  predicate WellFormed(b: seq<byte>) {
    |b| >= HEADER_SIZE && Holds(b, TotalOf(b), Contents(b))
  }

  lemma {:induction false} ParseEncoded(objs: seq<Obj>, rest: seq<byte>)
    requires AllStorable(objs)
    ensures Parse(EncodeAll(objs) + rest, |objs|) == objs
  {
    hide EncodeAll, EncodeObject, ReadObject, Storable;
    if objs != [] {
      ParseEncoded(objs[1..], rest);
      EncodeFirst(objs);
      ParseFirst(objs[0], EncodeAll(objs[1..]), rest, |objs| - 1);
    }
  }

  lemma ParseFirst(o: Obj, more: seq<byte>, rest: seq<byte>, n: nat)
    requires Storable(o)
    ensures Parse(EncodeObject(o) + more + rest, n + 1) == [o] + Parse(more + rest, n)
  {
    hide EncodeObject, ReadObject;
    var first := EncodeObject(o);
    ReadWrittenObject(o, more + rest);
    assert first + more + rest == first + (more + rest);
    assert (first + (more + rest))[|first|..] == more + rest;
  }

  lemma HeaderOf(b: seq<byte>, total: nat, objs: seq<Obj>)
    requires Holds(b, total, objs)
    ensures ReadHeader(b) == (Ok, Header(total, Used(objs), |objs|))
  {
    assert b == b[..HEADER_SIZE] + b[HEADER_SIZE..];
    ReadWrittenHeader(Header(total, Used(objs), |objs|), b[HEADER_SIZE..]);
  }

  /** The bytes determine capacity and contents: a block holds at most one list of objects. */
  lemma HoldsDetermines(b: seq<byte>, total: nat, objs: seq<Obj>)
    requires Holds(b, total, objs)
    ensures WellFormed(b) && TotalOf(b) == total && Contents(b) == objs && UsedOf(b) == Used(objs)
  {
    HeaderOf(b, total, objs);
    assert Area(b) == EncodeAll(objs) + [];
    ParseEncoded(objs, []);
  }

  /** A cursor on the boundary before object i reads object i, whatever limit behind it. */
  lemma ReadAtBoundary(b: seq<byte>, objs: seq<Obj>, i: nat, limit: nat)
    requires Body(b, objs) && AllStorable(objs) && i < |objs| && Used(objs) <= limit <= |b|
    ensures Offset(objs, i) <= limit
    ensures ReadObject(b[Offset(objs, i)..limit]) == Read(objs[i], ObjectSize(objs[i]))
  {
    var from, used := Offset(objs, i), Used(objs);
    BytesAtBoundary(b, objs, i);
    EncodeFirst(objs[i..]);
    assert objs[i..][1..] == objs[i + 1..];
    ReadInFront(objs[i], EncodeAll(objs[i + 1..]), b[used..limit]);
    SliceJoin(b, from, used, limit);
  }

  lemma BytesAtBoundary(b: seq<byte>, objs: seq<Obj>, i: nat)
    requires Body(b, objs) && i <= |objs|
    ensures HEADER_SIZE <= Offset(objs, i) <= Used(objs)
    ensures b[HEADER_SIZE..Offset(objs, i)] == EncodeAll(objs[..i])
    ensures b[Offset(objs, i)..Used(objs)] == EncodeAll(objs[i..])
  {
    EncodeCut(objs, i);
    SliceParts(b, HEADER_SIZE, Used(objs), EncodeAll(objs[..i]), EncodeAll(objs[i..]));
  }

  lemma ReadInFront(o: Obj, more: seq<byte>, rest: seq<byte>)
    requires Storable(o)
    ensures ReadObject(EncodeObject(o) + more + rest) == Read(o, ObjectSize(o))
  {
    ReadWrittenObject(o, more + rest);
    assert EncodeObject(o) + more + rest == EncodeObject(o) + (more + rest);
  }

  /** Only the used prefix counts: behind it any bytes may follow, as long as there is room. */
  lemma OnlyThePrefixCounts(b: seq<byte>, tail: seq<byte>)
    requires WellFormed(b) && UsedOf(b) + |tail| >= TotalOf(b)
    ensures UsedOf(b) <= |b|
    ensures var b' := b[..UsedOf(b)] + tail;
            && WellFormed(b') && Contents(b') == Contents(b)
            && TotalOf(b') == TotalOf(b) && UsedOf(b') == UsedOf(b)
            && b'[..UsedOf(b)] == b[..UsedOf(b)]
  {
    var total, objs := TotalOf(b), Contents(b);
    HeaderOf(b, total, objs);
    var b' := b[..UsedOf(b)] + tail;
    assert b'[..HEADER_SIZE] == b[..HEADER_SIZE];
    assert b'[HEADER_SIZE..Used(objs)] == b[HEADER_SIZE..Used(objs)];
    HoldsDetermines(b', total, objs);
  }
}
