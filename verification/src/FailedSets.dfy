/** What np_set_data leaves behind when the room it reserved is too small for the object: the
    tail has been moved, the front of the object written, and the header is the old one. */
module FailedSets {
  import opened Bytes
  import opened Cbor
  import opened KvCodec
  import opened Layout
  import opened Datablock

  // -------------------------------------------------- the bytes that stay

  lemma SameSlices(b: seq<byte>, b': seq<byte>, lo: nat, hi: nat)
    requires lo <= hi <= |b| == |b'| && b'[..hi] == b[..hi]
    ensures b'[..lo] == b[..lo] && b'[lo..hi] == b[lo..hi]
  {
    assert b'[..lo] == b'[..hi][..lo] && b[..lo] == b[..hi][..lo];
    assert b'[lo..hi] == b'[..hi][lo..] && b[lo..hi] == b[..hi][lo..];
  }

  lemma SameHeader(b: seq<byte>, b': seq<byte>)
    requires |b| >= HEADER_SIZE && |b'| >= HEADER_SIZE && b'[..HEADER_SIZE] == b[..HEADER_SIZE]
    ensures ReadHeader(b') == ReadHeader(b)
  {
  }

  lemma SameFront(b: seq<byte>, b': seq<byte>, total: nat, objs: seq<Obj>)
    requires Holds(b, total, objs) && |b'| == |b| && b'[..Used(objs)] == b[..Used(objs)]
    ensures Holds(b', total, objs)
  {
    hide EncodeHeader, EncodeAll;
    SameSlices(b, b', HEADER_SIZE, Used(objs));
  }

  lemma PlacedKeepsFront(b: seq<byte>, p: Place, room: nat, piece: seq<byte>)
    requires HasRoom(b, p, room) && |piece| <= room
    ensures Placed(b, p, room, piece)[..p.start] == b[..p.start]
  {
    var moved := b[p.end..p.used];
    SpliceKeepsFront(b, p.start + room, moved, 0, p.start);
    SpliceKeepsFront(Splice(b, p.start + room, moved), p.start, piece, 0, p.start);
  }

  /** One of the two is a beginning of the other. */
  predicate Agree(x: seq<byte>, w: seq<byte>) {
    forall j | 0 <= j < |x| && j < |w| :: x[j] == w[j]
  }

  /** From position lo on, w repeats itself after d bytes. */
  predicate Repeats(w: seq<byte>, lo: nat, d: nat) {
    forall j | lo <= j < |w| - d :: w[j] == w[j + d]
  }

  function Distance(a: nat, b: nat): nat {
    if a <= b then b - a else a - b
  }

  /** Byte j of w after its part from `size` on has been moved to `room` and x written in front. */
  function Moved(w: seq<byte>, x: seq<byte>, room: nat, size: nat, j: nat): byte
    requires |x| <= room && size <= |w| && j < |w|
  {
    if j < |x| then x[j] else if room <= j < room + |w| - size then w[j - room + size] else w[j]
  }

  /** The bytes from the place to the end of the used ones, one by one. */
  lemma PlacedBytesAt(b: seq<byte>, p: Place, room: nat, piece: seq<byte>, j: nat)
    requires HasRoom(b, p, room) && |piece| <= room && p.start + j < p.used
    ensures var w, size := b[p.start..p.used], p.end - p.start;
            Placed(b, p, room, piece)[p.start + j] == Moved(w, piece, room, size, j)
  {
  }

  lemma UnmovedIsPeriodic(w: seq<byte>, x: seq<byte>, room: nat, size: nat)
    requires |x| <= room && size <= |w|
    requires forall j | 0 <= j < |w| :: Moved(w, x, room, size, j) == w[j]
    ensures Agree(x, w) && Repeats(w, Min(room, size), Distance(room, size))
  {
    hide Moved;
    var d := Distance(room, size);
    forall j | 0 <= j < |x| && j < |w| ensures x[j] == w[j] {
      assert Moved(w, x, room, size, j) == x[j] by { MovedByte(w, x, room, size, j); }
    }
    forall j | Min(room, size) <= j < |w| - d ensures w[j] == w[j + d] {
      var i := if room <= size then j else j + d;
      MovedByte(w, x, room, size, i);
      assert Moved(w, x, room, size, i) == w[i];
    }
  }

  lemma MovedByte(w: seq<byte>, x: seq<byte>, room: nat, size: nat, j: nat)
    requires |x| <= room && size <= |w| && j < |w|
    ensures j < |x| ==> Moved(w, x, room, size, j) == x[j]
    ensures room <= j < room + |w| - size ==> Moved(w, x, room, size, j) == w[j - room + size]
    ensures j >= |x| && !(room <= j < room + |w| - size) ==> Moved(w, x, room, size, j) == w[j]
  {
  }

  lemma PeriodicIsUnmoved(w: seq<byte>, x: seq<byte>, room: nat, size: nat, j: nat)
    requires |x| <= room && size <= |w| && j < |w|
    requires Agree(x, w) && Repeats(w, Min(room, size), Distance(room, size))
    ensures Moved(w, x, room, size, j) == w[j]
  {
    hide Moved;
    var d := Distance(room, size);
    MovedByte(w, x, room, size, j);
    if j < |x| {
      assert x[j] == w[j];
    } else if room <= j < room + |w| - size {
      var i := if room <= size then j else j - d;
      assert w[i] == w[i + d];
    }
  }

  /** Moving the tail and writing a piece leave the used bytes as they were exactly when the
      piece is what was there and everything behind repeats itself after the distance moved. */
  lemma PlacedUnchangedIff(b: seq<byte>, p: Place, room: nat, piece: seq<byte>)
    requires HasRoom(b, p, room) && |piece| <= room
    ensures var w, size := b[p.start..p.used], p.end - p.start;
            Placed(b, p, room, piece)[p.start..p.used] == w
            <==> Agree(piece, w) && Repeats(w, Min(room, size), Distance(room, size))
  {
    hide Placed, Moved, Repeats, Agree;
    var w, y, size := b[p.start..p.used], Placed(b, p, room, piece)[p.start..p.used], p.end - p.start;
    forall j | 0 <= j < |w| ensures y[j] == Moved(w, piece, room, size, j) {
      PlacedBytesAt(b, p, room, piece, j);
    }
    if y == w {
      UnmovedIsPeriodic(w, piece, room, size);
    } else if Agree(piece, w) && Repeats(w, Min(room, size), Distance(room, size)) {
      forall j | 0 <= j < |w| ensures y[j] == w[j] {
        PeriodicIsUnmoved(w, piece, room, size, j);
      }
      assert false;
    }
  }

  // ----------------------------------------------- what the encoder has written

  predicate IsNumber(v: Value) {
    v.Int? || v.UInt?
  }

  predicate IsEmptyData(v: Value) {
    Pointed(v) == Some([])
  }

  lemma FittingTwo(a: seq<byte>, b: seq<byte>, c: seq<byte>, d: seq<byte>, room: nat)
    requires |a| + |b| <= room < |a| + |b| + |c|
    ensures Fitting([a, b, c, d], room) == a + b
  {
    assert [a, b, c, d][1..] == [b, c, d] && [b, c, d][1..] == [c, d];
    assert Fitting([c, d], room - |a| - |b|) == [];
    assert Fitting([b, c, d], room - |a|) == b + [];
  }

  lemma FittingThree(a: seq<byte>, b: seq<byte>, c: seq<byte>, d: seq<byte>, room: nat)
    requires |a| + |b| + |c| <= room < |a| + |b| + |c| + |d|
    ensures Fitting([a, b, c, d], room) == a + b + c
  {
    assert [a, b, c, d][1..] == [b, c, d] && [b, c, d][1..] == [c, d] && [c, d][1..] == [d];
    assert Fitting([d], room - |a| - |b| - |c|) == [];
    assert Fitting([c, d], room - |a| - |b|) == c + [];
    assert Fitting([b, c, d], room - |a|) == b + (c + []);
    assert a + (b + (c + [])) == a + b + c;
  }

  /** Head and text of the key. */
  function KeyBytes(key: Key): seq<byte> {
    Head(TEXT_STRING, |key|) + key
  }

  /** Too little room always cuts off the last addition: the number, or the data; only where
      there is no data the head of the value. */
  lemma KeptIsTheFront(o: Obj)
    requires Representable(o) && Slack(o) < 0
    ensures Kept(o) == if IsEmptyData(o.value) then KeyBytes(o.key) else KeyBytes(o.key) + ValuePieces(o.value)[0]
  {
    var a, b, c, d := Head(TEXT_STRING, |o.key|), o.key, ValuePieces(o.value)[0], ValuePieces(o.value)[1];
    assert Pieces(o) == [a, b, c, d];
    PiecesMakeTheObject(o);
    FourPieces(a, b, c, d);
    CalcSizeAgainstEncoding(o);
    LastIsCut(o);
    if IsEmptyData(o.value) {
      FittingTwo(a, b, c, d, CalcSize(o));
    } else {
      FittingThree(a, b, c, d, CalcSize(o));
    }
  }

  lemma LastIsCut(o: Obj)
    requires Representable(o) && Slack(o) < 0
    ensures var ps := ValuePieces(o.value);
            if IsEmptyData(o.value) then |ps[0]| + Slack(o) == |ps[1]| == 0 else 0 <= |ps[1]| + Slack(o) < |ps[1]|
  {
  }

  // ------------------------------------------------- data: always damaged

  /** Behind the front of an object with data, as many bytes are read as its head announces. */
  lemma ReadFront(o: Obj, x: seq<byte>)
    requires Representable(o) && Pointed(o.value).Some?
    ensures var n, front := |Pointed(o.value).value|, KeyBytes(o.key) + ValuePieces(o.value)[0];
            if n <= |x| then
              ReadObject(front + x)
              == Read(Obj(o.key, if o.value.Bin? then Bin(x[..n]) else Str(x[..n])), |front| + n)
            else ReadObject(front + x).ReadError?
  {
    var n, v := |Pointed(o.value).value|, ValuePieces(o.value)[0];
    var front := KeyBytes(o.key) + v;
    if n <= |x| {
      var o' := Obj(o.key, if o.value.Bin? then Bin(x[..n]) else Str(x[..n]));
      assert x == x[..n] + x[n..];
      assert EncodeObject(o') == KeyBytes(o.key) + (v + x[..n]);
      assert front + x == EncodeObject(o') + x[n..];
      ReadWrittenObject(o', x[n..]);
    } else {
      ReadCutFront(o, x);
    }
  }

  lemma ReadCutFront(o: Obj, x: seq<byte>)
    requires Representable(o) && Pointed(o.value).Some? && |x| < |Pointed(o.value).value|
    ensures ReadObject(KeyBytes(o.key) + ValuePieces(o.value)[0] + x).ReadError?
  {
    hide CText;
    var n, v := |Pointed(o.value).value|, ValuePieces(o.value)[0];
    var h := Head(TEXT_STRING, |o.key|);
    var s := KeyBytes(o.key) + v + x;
    assert s == h + o.key + (v + x);
    ReadWrittenData(o.key, TEXT_STRING, v + x);
    assert s[|h| + |o.key|..] == v + x;
    ReadWrittenHead(if o.value.Bin? then BYTE_STRING else TEXT_STRING, n, x);
  }

  /** Whatever follows the front, what is read there is no object np_set_data stores. */
  lemma FrontIsUnstorable(o: Obj, s: seq<byte>)
    requires Representable(o) && Slack(o) < 0 && Pointed(o.value).Some? && !IsEmptyData(o.value)
    requires Agree(KeyBytes(o.key) + ValuePieces(o.value)[0], s)
    ensures ReadObject(s).Read? ==> !Storable(ReadObject(s).item)
  {
    hide ReadObject;
    var front := KeyBytes(o.key) + ValuePieces(o.value)[0];
    if |front| <= |s| {
      assert s == front + s[|front|..];
      ReadFront(o, s[|front|..]);
    } else if ReadObject(s).Read? {
      assert front + [] == s + front[|s|..];
      ObjectExtends(s, front[|s|..]);
      ReadFront(o, []);
      assert false;
    }
  }

  lemma {:induction false} ParseThrough(front: seq<Obj>, s: seq<byte>, n: nat)
    requires AllStorable(front)
    ensures Parse(EncodeAll(front) + s, |front| + n) == front + Parse(s, n)
  {
    hide EncodeAll, EncodeObject, ReadObject, Storable;
    if front == [] {
      assert EncodeAll(front) + s == s by { EncodeNothing(); }
    } else {
      ParseThrough(front[1..], s, n);
      EncodeFirst(front);
      ParseFirst(front[0], EncodeAll(front[1..]), s, |front| - 1 + n);
      assert front == [front[0]] + front[1..];
    }
  }

  lemma EncodeNothing()
    ensures EncodeAll([]) == []
  {
  }

  /** What is read from a block whose header and first objects are intact. */
  lemma ContentsFromPlace(b: seq<byte>, total: nat, objs: seq<Obj>, key: Key, b': seq<byte>)
    requires Holds(b, total, objs) && Has(objs, key) && |b'| == |b|
    requires PlaceOf(objs, key).start <= |b| && b'[..PlaceOf(objs, key).start] == b[..PlaceOf(objs, key).start]
    ensures var p, i := PlaceOf(objs, key), Find(objs, key);
            && p.start <= p.used <= |b|
            && ReadHeader(b') == (Ok, Header(total, Used(objs), |objs|))
            && Contents(b') == objs[..i] + Parse(b'[p.start..p.used], |objs| - i)
  {
    hide EncodeAll, EncodeHeader, ReadHeader, Parse, Storable, DistinctKeys;
    var p, i := PlaceOf(objs, key), Find(objs, key);
    AroundPlace(b, objs, key);
    HeaderOf(b, total, objs);
    SameSlices(b, b', HEADER_SIZE, p.start);
    SameHeader(b, b');
    SliceJoin(b', HEADER_SIZE, p.start, p.used);
    ParseThrough(objs[..i], b'[p.start..p.used], |objs| - i);
  }

  lemma PlacedAgrees(b: seq<byte>, p: Place, room: nat, piece: seq<byte>)
    requires HasRoom(b, p, room) && |piece| <= room
    ensures Agree(piece, Placed(b, p, room, piece)[p.start..p.used])
  {
    hide Placed;
    forall j | 0 <= j < |piece| && j < p.used - p.start
      ensures piece[j] == Placed(b, p, room, piece)[p.start..p.used][j]
    {
      PlacedBytesAt(b, p, room, piece, j);
    }
  }

  /** An overwrite with data for which the reserved room is too small (24 bytes, 65536 or
      more, or any under a key of length 24) always leaves an ill-formed block: the header
      promises objects that cannot be read, or that np_set_data would not have stored. */
  lemma DamagedBlock(b: seq<byte>, total: nat, objs: seq<Obj>, o: Obj)
    requires Holds(b, total, objs) && Has(objs, o.key) && HasRoom(b, PlaceOf(objs, o.key), CalcSize(o))
    requires Representable(o) && Slack(o) < 0 && Pointed(o.value).Some? && !IsEmptyData(o.value)
    ensures !WellFormed(Placed(b, PlaceOf(objs, o.key), CalcSize(o), Kept(o)))
  {
    hide EncodeAll, EncodeHeader, ReadHeader, ReadObject, Storable, Placed, Kept, CalcSize, KeyBytes, Representable;
    var p, i := PlaceOf(objs, o.key), Find(objs, o.key);
    var b' := Placed(b, p, CalcSize(o), Kept(o));
    PlacedKeepsFront(b, p, CalcSize(o), Kept(o));
    ContentsFromPlace(b, total, objs, o.key, b');
    KeptIsTheFront(o);
    PlacedAgrees(b, p, CalcSize(o), Kept(o));
    FrontIsUnstorable(o, b'[p.start..p.used]);
    BrokenAt(b', i);
  }

  lemma BrokenAt(b: seq<byte>, i: nat)
    requires |b| >= HEADER_SIZE && i < ReadHeader(b).1.count
    requires i < |Contents(b)| ==> !Storable(Contents(b)[i])
    ensures !WellFormed(b)
  {
    hide EncodeHeader, ReadHeader, Parse, Storable, Body;
    if WellFormed(b) {
      HeaderOf(b, TotalOf(b), Contents(b));
      assert false;
    }
  }

  // ------------------------------------------ numbers: damaged or unnoticed

  /** The written front is the old one: a number over a number of its kind, or no data. */
  predicate SameForm(v: Value, old': Value) {
    (v.Int? && old'.Int?) || (v.UInt? && old'.UInt?) || IsEmptyData(v)
  }

  lemma TagBytes()
    ensures Head(TAG, TAG_LONG) == [0xD9, 0x7A, 0xBA] && Head(TAG, TAG_UNSIGNED_LONG) == [0xD9, 0x7A, 0xC3]
  {
    assert BigEndian(TAG_LONG, 2) == [0x7A, 0xBA];
    assert BigEndian(TAG_UNSIGNED_LONG, 2) == [0x7A, 0xC3];
  }

  lemma FirstByte(major: nat, arg: nat)
    requires major < 8
    ensures major * 32 <= Head(major, arg)[0] < major * 32 + 32
  {
  }

  lemma TagAgrees(v: Value, old': Value, t: seq<byte>)
    requires IsNumber(v)
    ensures Agree(ValuePieces(v)[0], EncodeValue(old') + t) <==> SameForm(v, old')
  {
    hide Head;
    TagBytes();
    var x, w := ValuePieces(v)[0], EncodeValue(old') + t;
    match old' {
      case Bin(d) => FirstByte(BYTE_STRING, |d|); assert w[0] == Head(BYTE_STRING, |d|)[0] != x[0];
      case Str(d) => FirstByte(TEXT_STRING, |d|); assert w[0] == Head(TEXT_STRING, |d|)[0] != x[0];
      case Int(n) => assert w[0] == 0xD9 && w[1] == 0x7A && w[2] == 0xBA;
      case UInt(n) => assert w[0] == 0xD9 && w[1] == 0x7A && w[2] == 0xC3;
    }
  }

  lemma AgreeBehind(k: seq<byte>, x: seq<byte>, w: seq<byte>)
    ensures Agree(k + x, k + w) <==> Agree(x, w)
  {
    if Agree(k + x, k + w) {
      forall j | 0 <= j < |x| && j < |w| ensures x[j] == w[j] {
        assert (k + x)[|k| + j] == (k + w)[|k| + j];
      }
    }
  }

  lemma KeptAgrees(o: Obj, u: Obj, t: seq<byte>)
    requires Representable(o) && Slack(o) < 0 && o.key == u.key && (IsNumber(o.value) || IsEmptyData(o.value))
    ensures Agree(Kept(o), EncodeObject(u) + t) <==> SameForm(o.value, u.value)
  {
    hide Head, Kept;
    KeptIsTheFront(o);
    var k, w := KeyBytes(o.key), EncodeValue(u.value) + t;
    assert EncodeObject(u) + t == k + w;
    if IsEmptyData(o.value) {
      assert k + [] == k;
      AgreeBehind(k, [], w);
    } else {
      AgreeBehind(k, ValuePieces(o.value)[0], w);
      TagAgrees(o.value, u.value, t);
    }
  }

  /** What a caller can check before an overwrite with too little room: the front is what is
      there already, and the rest of the block repeats itself after the distance by which the
      size is off; behind the last object nothing has to. */
  predicate Unnoticed(objs: seq<Obj>, o: Obj)
    requires Has(objs, o.key)
  {
    var i := Find(objs, o.key);
    var size, rest := ObjectSize(objs[i]), EncodeObject(objs[i]) + EncodeAll(objs[i + 1..]);
    SameForm(o.value, objs[i].value) && Repeats(rest, Min(CalcSize(o), size), Distance(CalcSize(o), size))
  }

  lemma LastIsUnnoticed(objs: seq<Obj>, o: Obj)
    requires Has(objs, o.key) && Find(objs, o.key) + 1 == |objs|
    ensures Unnoticed(objs, o) <==> SameForm(o.value, objs[|objs| - 1].value)
  {
    hide EncodeObject, CalcSize, SameForm;
    assert objs[|objs|..] == [];
    EncodeNothing();
  }

  lemma UnchangedIff(b: seq<byte>, total: nat, objs: seq<Obj>, o: Obj, b': seq<byte>)
    requires Holds(b, total, objs) && Has(objs, o.key) && |b'| == |b|
    requires PlaceOf(objs, o.key).start <= |b| && b'[..PlaceOf(objs, o.key).start] == b[..PlaceOf(objs, o.key).start]
    ensures var p := PlaceOf(objs, o.key);
            && p.start <= p.used <= |b|
            && (WellFormed(b') && Contents(b') == objs <==> b'[p.start..p.used] == b[p.start..p.used])
  {
    hide EncodeAll, EncodeHeader, ReadHeader, Parse, Storable, DistinctKeys, ReadObject;
    var p := PlaceOf(objs, o.key);
    AroundPlace(b, objs, o.key);
    ContentsFromPlace(b, total, objs, o.key, b');
    if b'[p.start..p.used] == b[p.start..p.used] {
      assert b'[..p.used] == b'[..p.start] + b'[p.start..p.used];
      assert b[..p.used] == b[..p.start] + b[p.start..p.used];
      SameFront(b, b', total, objs);
      HoldsDetermines(b', total, objs);
    } else if WellFormed(b') && Contents(b') == objs {
      assert b'[HEADER_SIZE..p.used] == b[HEADER_SIZE..p.used];
      SliceOf(b, HEADER_SIZE, p.start, p.used);
      SliceOf(b', HEADER_SIZE, p.start, p.used);
      assert false;
    }
  }

  lemma SliceOf(b: seq<byte>, lo: nat, mid: nat, hi: nat)
    requires lo <= mid <= hi <= |b|
    ensures b[mid..hi] == b[lo..hi][mid - lo..]
  {
  }

  /** An overwrite whose reserved room is too small leaves readers what they had before
      exactly when it goes unnoticed. */
  lemma UnnoticedIff(b: seq<byte>, total: nat, objs: seq<Obj>, o: Obj)
    requires Holds(b, total, objs) && Has(objs, o.key) && HasRoom(b, PlaceOf(objs, o.key), CalcSize(o))
    requires Representable(o) && Slack(o) < 0
    ensures var b' := Placed(b, PlaceOf(objs, o.key), CalcSize(o), Kept(o));
            WellFormed(b') && Contents(b') == objs <==> Unnoticed(objs, o)
  {
    hide EncodeHeader, ReadHeader, Parse, Storable, DistinctKeys, Placed, Kept, CalcSize, Slack, WellFormed;
    hide Representable, EncodeObject, EncodeAll, Offset, Used;
    var p, i := PlaceOf(objs, o.key), Find(objs, o.key);
    var b' := Placed(b, p, CalcSize(o), Kept(o));
    AroundPlace(b, objs, o.key);
    PlacedKeepsFront(b, p, CalcSize(o), Kept(o));
    UnchangedIff(b, total, objs, o, b');
    RestOf(b, total, objs, o.key);
    PlacedUnchangedIff(b, p, CalcSize(o), Kept(o));
    if IsNumber(o.value) || IsEmptyData(o.value) {
      KeptAgrees(o, objs[i], EncodeAll(objs[i + 1..]));
    } else {
      DamagedBlock(b, total, objs, o);
    }
  }

  lemma RestOf(b: seq<byte>, total: nat, objs: seq<Obj>, key: Key)
    requires Holds(b, total, objs) && Has(objs, key)
    ensures var p, i := PlaceOf(objs, key), Find(objs, key);
            && p.start <= p.end <= p.used <= |b| && p.end - p.start == ObjectSize(objs[i])
            && b[p.start..p.used] == EncodeObject(objs[i]) + EncodeAll(objs[i + 1..])
  {
    hide EncodeAll, EncodeHeader, EncodeObject;
    var i := Find(objs, key);
    AroundPlace(b, objs, key);
    BytesAtBoundary(b, objs, i);
    EncodeFirst(objs[i..]);
    assert objs[i..][1..] == objs[i + 1..];
  }

  // --------------------------------------------------- one that is noticed

  const K: Key := [0x6B]
  const LETTER_A: Key := [0x61]
  const AT_SIGN: Key := [0x40]

  lemma LongBytes(n: int)
    requires 24 <= n < 256
    ensures EncodeObject(Obj(K, Int(n))) == [0x61, 0x6B, 0xD9, 0x7A, 0xBA, 0x18, n]
  {
    TagBytes();
    assert Head(TEXT_STRING, 1) == [0x61];
    assert BigEndian(n, 1) == [n];
    assert Head(UNSIGNED, n) == [0x18, n];
  }

  lemma EmptyBytes(c: byte)
    ensures EncodeObject(Obj([c], Bin([]))) == [0x61, c, 0x40]
  {
    assert Head(TEXT_STRING, 1) == [0x61] && Head(BYTE_STRING, 0) == [0x40];
  }

  lemma KeptBytes()
    ensures Kept(Obj(K, Int(24))) == [0x61, 0x6B, 0xD9, 0x7A, 0xBA] && CalcSize(Obj(K, Int(24))) == 6
  {
    hide Kept;
    TagBytes();
    assert Head(TEXT_STRING, 1) == [0x61];
    KeptIsTheFront(Obj(K, Int(24)));
  }

  lemma TwoEncoded(x: Obj, y: Obj)
    ensures EncodeAll([x, y]) == EncodeObject(x) + EncodeObject(y)
    ensures EncodeAll([x]) == EncodeObject(x)
  {
    hide EncodeObject;
    EncodeFirst([x, y]);
    EncodeFirst([y]);
    EncodeFirst([x]);
    EncodeNothing();
    assert [x, y][1..] == [y] && [y][1..] == [] && [x][1..] == [];
  }

  /** Damage at a real input: "k" holds 25 and "a" holds no bytes; setting "k" to 24 is
      reported as failed, and the block, well-formed as before, now reads "k" as 97 and has
      no "a" but an "@". */
  lemma SilentCorruption(b: seq<byte>, total: nat)
    requires Holds(b, total, [Obj(K, Int(25)), Obj(LETTER_A, Bin([]))])
    ensures var objs, o := [Obj(K, Int(25)), Obj(LETTER_A, Bin([]))], Obj(K, Int(24));
            && SetRet(objs, total, o) == CouldNotWriteTotalLength
            && HasRoom(b, PlaceOf(objs, K), CalcSize(o))
            && Holds(Placed(b, PlaceOf(objs, K), CalcSize(o), Kept(o)), total, [Obj(K, Int(97)), Obj(AT_SIGN, Bin([]))])
  {
    hide EncodeObject, EncodeHeader, CalcSize, Kept, Placed;
    var x, y, o := Obj(K, Int(25)), Obj(LETTER_A, Bin([])), Obj(K, Int(24));
    var x', y' := Obj(K, Int(97)), Obj(AT_SIGN, Bin([]));
    LongBytes(25);
    LongBytes(97);
    EmptyBytes(0x61);
    EmptyBytes(0x40);
    KeptBytes();
    TwoEncoded(x, y);
    TwoEncoded(x', y');
    ExamplePlace(x, y);
    var p := PlaceOf([x, y], K);
    var b' := Placed(b, p, 6, Kept(o));
    PlacedKeepsFront(b, p, 6, Kept(o));
    ExampleMoved(b, p, Kept(o));
    assert b'[..HEADER_SIZE] == b[..HEADER_SIZE];
    assert Body(b', [x', y']);
  }

  lemma ExamplePlace(x: Obj, y: Obj)
    requires x.key == K && ObjectSize(x) == 7 && ObjectSize(y) == 3
    ensures Find([x, y], K) == 0 && PlaceOf([x, y], K) == Place(21, 28, 31)
    ensures OldSize([x, y], K) == 7 && Used([x, y]) == 31
  {
    hide EncodeObject;
    TwoEncoded(x, y);
    assert [x, y][..0] == [] && [x, y][..1] == [x];
    EncodeNothing();
  }

  lemma ExampleMoved(b: seq<byte>, p: Place, kept: seq<byte>)
    requires p == Place(21, 28, 31) && |b| >= 31
    requires b[21..31] == [0x61, 0x6B, 0xD9, 0x7A, 0xBA, 0x18, 25, 0x61, 0x61, 0x40]
    requires kept == [0x61, 0x6B, 0xD9, 0x7A, 0xBA]
    ensures Placed(b, p, 6, kept)[21..31] == [0x61, 0x6B, 0xD9, 0x7A, 0xBA, 0x18, 97, 0x61, 0x40, 0x40]
  {
    hide Placed;
    var w := b[21..31];
    var y := Placed(b, p, 6, kept)[21..31];
    forall j | 0 <= j < 10 ensures y[j] == Moved(w, kept, 6, 7, j) {
      PlacedBytesAt(b, p, 6, kept, j);
    }
    var z := [0x61, 0x6B, 0xD9, 0x7A, 0xBA, 0x18, 97, 0x61, 0x40, 0x40];
    forall j | 0 <= j < 10 ensures y[j] == z[j] {
      assert y[j] == Moved(w, kept, 6, 7, j);
    }
  }
}
