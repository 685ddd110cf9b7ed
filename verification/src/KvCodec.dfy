/** The key/value objects and the header of a datablock, as the CBOR serializer of
    src/util/s11n_impl/np_serialize_qcbor.c writes, measures and reads them. */
module KvCodec {
  import opened Bytes
  import opened Cbor

  /** The return codes of the datablock functions. AssertFailed stands for a failed ASSERT,
      which stops the process. */
  datatype Ret =
    | Ok
    | KeyNotFound
    | InsufficientMemory
    | InvalidStructure
    | InvalidArguments
    | CouldNotWriteTotalLength
    | CouldNotReadMagicNo
    | CouldNotReadTotalLength
    | CouldNotReadUsedLength
    | CouldNotReadObjectCount
    | CouldNotReadObject
    | CouldNotReadKey
    | AssertFailed

  type Key = seq<byte>

  datatype Value =
    | Bin(bytes: seq<byte>)
    | Str(text: seq<byte>)
    | Int(integer: int)
    | UInt(unsigned: nat)

  datatype Obj = Obj(key: Key, value: Value)

  /** What the pointer member of the value union points to: bytes and text share it. */
  function Pointed(v: Value): Option<seq<byte>> {
    match v
    case Bin(b) => Some(b)
    case Str(t) => Some(t)
    case _ => None
  }

  const MAGIC_NO := 22964591
  const HEADER_SIZE := 21
  const REGISTRY_ENTRIES := 31415
  const TAG_LONG := REGISTRY_ENTRIES + 3
  const TAG_UNSIGNED_LONG := REGISTRY_ENTRIES + 12

  /** What a C caller can hand over: a NUL-terminated key in a char[255], values of
      the C types, and data no longer than an object in memory can be. */
  predicate Representable(o: Obj) {
    && |o.key| <= 254
    && (forall i | 0 <= i < |o.key| :: o.key[i] != 0)
    && match o.value {
         case Bin(b) => |b| < 0x8000_0000_0000_0000
         case Str(t) => |t| < 0x8000_0000_0000_0000
         case Int(n) => -0x8000_0000 <= n < 0x8000_0000
         case UInt(n) => n < 0x1_0000_0000
       }
  }

  // ---------------------------------------------------------------- writing

  function EncodeInt(n: int): (s: seq<byte>)
    ensures |s| >= 1
  {
    if n >= 0 then Head(UNSIGNED, n) else Head(NEGATIVE, -1 - n)
  }

  function EncodeValue(v: Value): (s: seq<byte>)
    ensures |s| >= 1
  {
    match v
    case Bin(b) => Head(BYTE_STRING, |b|) + b
    case Str(t) => Head(TEXT_STRING, |t|) + t
    case Int(n) => Head(TAG, TAG_LONG) + EncodeInt(n)
    case UInt(n) => Head(TAG, TAG_UNSIGNED_LONG) + EncodeInt(n)
  }

  /** The bytes np_serializer_write_object produces when its buffer is large enough. */
  function EncodeObject(o: Obj): (s: seq<byte>)
    ensures |s| >= 2
  {
    Head(TEXT_STRING, |o.key|) + o.key + EncodeValue(o.value)
  }

  /** The additions of np_serializer_write_object in call order: head and text of the key,
      then head and data, or tag and number. */
  function Pieces(o: Obj): seq<seq<byte>> {
    [Head(TEXT_STRING, |o.key|), o.key] + ValuePieces(o.value)
  }

  function ValuePieces(v: Value): (ps: seq<seq<byte>>)
    ensures |ps| == 2
  {
    match v
    case Bin(b) => [Head(BYTE_STRING, |b|), b]
    case Str(t) => [Head(TEXT_STRING, |t|), t]
    case Int(n) => [Head(TAG, TAG_LONG), EncodeInt(n)]
    case UInt(n) => [Head(TAG, TAG_UNSIGNED_LONG), EncodeInt(n)]
  }

  /** What the encoder leaves in a buffer: the additions up to the first that does not fit. */
  function Fitting(pieces: seq<seq<byte>>, room: nat): (s: seq<byte>)
    ensures |s| <= room
  {
    if pieces == [] || |pieces[0]| > room then []
    else pieces[0] + Fitting(pieces[1..], room - |pieces[0]|)
  }

  lemma {:induction false} EverythingFits(pieces: seq<seq<byte>>, room: nat)
    requires |Flatten(pieces)| <= room
    ensures Fitting(pieces, room) == Flatten(pieces)
  {
    if pieces != [] {
      EverythingFits(pieces[1..], room - |pieces[0]|);
    }
  }

  lemma FourPieces(a: seq<byte>, b: seq<byte>, c: seq<byte>, d: seq<byte>)
    ensures Flatten([a, b, c, d]) == a + b + (c + d)
  {
    var ps := [a, b, c, d];
    assert ps[1..] == [b, c, d] && [b, c, d][1..] == [c, d] && [c, d][1..] == [d];
    FlattenOne(d);
    assert Flatten([c, d]) == c + d;
    assert Flatten([b, c, d]) == b + (c + d);
  }

  lemma PiecesMakeTheObject(o: Obj)
    ensures Flatten(Pieces(o)) == EncodeObject(o)
  {
    hide Head, EncodeInt;
    var v := ValuePieces(o.value);
    assert Pieces(o) == [Head(TEXT_STRING, |o.key|), o.key, v[0], v[1]];
    FourPieces(Head(TEXT_STRING, |o.key|), o.key, v[0], v[1]);
  }

  /** np_serializer_calculate_object_size: the room np_set_data reserves. */
  function CalcSize(o: Obj): (size: nat)
    ensures size >= 2
  {
    1 + |o.key| + (if |o.key| > 24 then 1 else 0) + CalcValueSize(o.value)
  }

  function CalcValueSize(v: Value): (size: nat)
    ensures size >= 1
  {
    match v
    case Bin(b) => CalcDataSize(|b|)
    case Str(t) => CalcDataSize(|t|)
    case Int(n) => 4 + CalcNumberSize(Abs32(n))
    case UInt(n) => 4 + CalcNumberSize(n)
  }

  function CalcDataSize(size: nat): nat {
    1 + size + (if size > 0xFF then 2 else if size > 24 then 1 else 0)
  }

  function CalcNumberSize(n: int): nat {
    if n > 0xFFFF then 4 else if n > 0xFF then 2 else if n > 24 then 1 else 0
  }

  /** Negation of an int32_t: the smallest value has no positive counterpart and stays. */
  function Abs32(n: int): int {
    if n > 0 || n == -0x8000_0000 then n else -n
  }

  // ------------------------------------------- reserved room against real size

  /** How many bytes the reserved room exceeds (or, negative, misses) the encoding of a value. */
  function ValueSlack(v: Value): int {
    match v
    case Bin(b) => DataSlack(|b|)
    case Str(t) => DataSlack(|t|)
    case Int(n) =>
      if n == 24 then -1
      else if n == -0x8000_0000 then -4
      else if n == -0x100 then 1
      else if n == -0x1_0000 then 2
      else 0
    case UInt(n) => if n == 24 then -1 else 0
  }

  function DataSlack(size: nat): int {
    if size == 24 then -1 else if size < 0x1_0000 then 0 else if size < 0x1_0000_0000 then -2 else -6
  }

  function Slack(o: Obj): int {
    ValueSlack(o.value) - (if |o.key| == 24 then 1 else 0)
  }

  /** The reserved room is right exactly when none of the boundary lengths and numbers of
      `Slack` occurs: `>` where CBOR needs `>=` at 24, no 32-bit lengths, and the absolute
      value of a negative number where CBOR stores -1 - n. */
  lemma CalcSizeAgainstEncoding(o: Obj)
    requires Representable(o)
    ensures CalcSize(o) == |EncodeObject(o)| + Slack(o)
  {
    assert |Head(TAG, TAG_LONG)| == 3 && |Head(TAG, TAG_UNSIGNED_LONG)| == 3;
    match o.value
    case Bin(b) =>
    case Str(t) =>
    case Int(n) =>
      assert CalcNumberSize(Abs32(n)) == |EncodeInt(n)| - 1 + ValueSlack(o.value);
    case UInt(n) =>
  }

  /** Objects np_set_data stores: their reserved room is exact. */
  predicate Storable(o: Obj) {
    Representable(o) && Slack(o) == 0
  }

  // ---------------------------------------------------------------- reading

  datatype ReadResult<+T> = Read(item: T, size: nat) | ReadError(ret: Ret)

  /** The `length` bytes after the first `from`, when they are there. */
  function Payload(s: seq<byte>, from: nat, length: nat): (r: Option<seq<byte>>)
    ensures r.Some? ==> from + length <= |s| && r.value == s[from..from + length]
  {
    if from + length <= |s| then Some(s[from..from + length]) else None
  }

  function ReadUntagged(s: seq<byte>, tag: nat): (r: ReadResult<Value>)
    ensures r.Read? ==> r.size <= |s|
  {
    match ReadHead(s)
    case None => ReadError(CouldNotReadObject)
    case Some(h) =>
      if h.major == BYTE_STRING || h.major == TEXT_STRING then
        match Payload(s, h.size, h.arg)
        case None => ReadError(CouldNotReadObject)
        case Some(p) => Read(if h.major == BYTE_STRING then Bin(p) else Str(p), h.size + h.arg)
      else if h.major == UNSIGNED || h.major == NEGATIVE then
        var n := if h.major == UNSIGNED then h.arg else -1 - h.arg;
        if tag == TAG_LONG && -0x8000_0000 <= n < 0x8000_0000 then Read(Int(n), h.size)
        else if tag == TAG_UNSIGNED_LONG && 0 <= n < 0x1_0000_0000 then Read(UInt(n), h.size)
        else ReadError(InvalidArguments)
      else ReadError(InvalidArguments)
  }

  function ReadValue(s: seq<byte>): (r: ReadResult<Value>)
    ensures r.Read? ==> r.size <= |s|
  {
    match ReadHead(s)
    case None => ReadError(CouldNotReadObject)
    case Some(h) =>
      if h.major == TAG then
        match ReadUntagged(s[h.size..], h.arg)
        case Read(v, size) => Read(v, h.size + size)
        case ReadError(e) => ReadError(e)
      else ReadUntagged(s, 0)
  }

  /** np_serializer_read_object on the bytes from buffer_start to buffer_end. */
  function ReadObject(s: seq<byte>): (r: ReadResult<Obj>)
    ensures r.Read? ==> 0 < r.size <= |s|
  {
    match ReadHead(s)
    case None => ReadError(CouldNotReadKey)
    case Some(h) =>
      if h.major != TEXT_STRING then ReadError(CouldNotReadKey)
      else
        match Payload(s, h.size, h.arg)
        case None => ReadError(CouldNotReadKey)
        case Some(key) =>
          match ReadValue(s[h.size + h.arg..])
          case Read(v, size) => Read(Obj(CText(key), v), h.size + h.arg + size)
          case ReadError(e) => ReadError(e)
  }

  predicate TaggedNumber(n: int, tag: nat) {
    || (tag == TAG_LONG && -0x8000_0000 <= n < 0x8000_0000)
    || (tag == TAG_UNSIGNED_LONG && 0 <= n < 0x1_0000_0000)
  }

  lemma ReadWrittenInt(n: int, tag: nat, rest: seq<byte>)
    requires TaggedNumber(n, tag)
    ensures ReadUntagged(EncodeInt(n) + rest, tag)
         == Read(if tag == TAG_LONG then Int(n) else UInt(n), |EncodeInt(n)|)
  {
    if n >= 0 { ReadWrittenHead(UNSIGNED, n, rest); } else { ReadWrittenHead(NEGATIVE, -1 - n, rest); }
  }

  lemma ReadWrittenData(data: seq<byte>, major: nat, rest: seq<byte>)
    requires major == BYTE_STRING || major == TEXT_STRING
    requires |data| < 0x8000_0000_0000_0000
    ensures var s := Head(major, |data|) + data;
            ReadUntagged(s + rest, 0) == Read(if major == BYTE_STRING then Bin(data) else Str(data), |s|)
    ensures ReadHead(Head(major, |data|) + data + rest) == Some(HeadItem(major, |data|, |Head(major, |data|)|))
  {
    var h := Head(major, |data|);
    ReadWrittenHead(major, |data|, data + rest);
    assert h + data + rest == h + (data + rest);
    assert (h + data + rest)[|h|..|h| + |data|] == data;
  }

  lemma ReadWrittenValue(v: Value, rest: seq<byte>)
    requires Representable(Obj([], v))
    ensures ReadValue(EncodeValue(v) + rest) == Read(v, |EncodeValue(v)|)
  {
    match v
    case Bin(b) => ReadWrittenData(b, BYTE_STRING, rest);
    case Str(t) => ReadWrittenData(t, TEXT_STRING, rest);
    case Int(n) => ReadWrittenTagged(n, TAG_LONG, rest);
    case UInt(n) => ReadWrittenTagged(n, TAG_UNSIGNED_LONG, rest);
  }

  lemma ReadWrittenTagged(n: int, tag: nat, rest: seq<byte>)
    requires TaggedNumber(n, tag)
    ensures var s := Head(TAG, tag) + EncodeInt(n);
            ReadValue(s + rest) == Read(if tag == TAG_LONG then Int(n) else UInt(n), |s|)
  {
    var h, i := Head(TAG, tag), EncodeInt(n);
    ReadWrittenHead(TAG, tag, i + rest);
    assert h + i + rest == h + (i + rest);
    assert (h + i + rest)[|h|..] == i + rest;
    ReadWrittenInt(n, tag, rest);
  }

  /** Reading inverts writing and looks at nothing behind the object. */
  lemma ReadWrittenObject(o: Obj, rest: seq<byte>)
    requires Representable(o)
    ensures ReadObject(EncodeObject(o) + rest) == Read(o, |EncodeObject(o)|)
  {
    var h, v := Head(TEXT_STRING, |o.key|), EncodeValue(o.value);
    var s := EncodeObject(o) + rest;
    assert s == h + o.key + (v + rest);
    ReadWrittenData(o.key, TEXT_STRING, v + rest);
    assert s[|h|..|h| + |o.key|] == o.key;
    assert s[|h| + |o.key|..] == v + rest;
    TextWithoutNul(o.key);
    ReadWrittenValue(o.value, rest);
  }

  // ---------------------------------------------- reading goes by what is read

  lemma HeadExtends(s: seq<byte>, rest: seq<byte>)
    ensures ReadHead(s).Some? ==> ReadHead(s + rest) == ReadHead(s)
  {
    if ReadHead(s).Some? {
      var size := ReadHead(s).value.size;
      assert (s + rest)[1..size] == s[1..size];
    }
  }

  lemma UntaggedExtends(s: seq<byte>, rest: seq<byte>, tag: nat)
    ensures ReadUntagged(s, tag).Read? ==> ReadUntagged(s + rest, tag) == ReadUntagged(s, tag)
  {
    hide ReadHead;
    HeadExtends(s, rest);
    if ReadUntagged(s, tag).Read? {
      var h := ReadHead(s).value;
      assert h.size + h.arg <= |s| ==> (s + rest)[h.size..h.size + h.arg] == s[h.size..h.size + h.arg];
    }
  }

  lemma ValueExtends(s: seq<byte>, rest: seq<byte>)
    ensures ReadValue(s).Read? ==> ReadValue(s + rest) == ReadValue(s)
  {
    hide ReadHead, ReadUntagged;
    HeadExtends(s, rest);
    if ReadValue(s).Read? {
      var h := ReadHead(s).value;
      assert (s + rest)[h.size..] == s[h.size..] + rest;
      UntaggedExtends(s[h.size..], rest, h.arg);
      UntaggedExtends(s, rest, 0);
    }
  }

  /** Bytes behind an object that can be read make no difference to it. */
  lemma ObjectExtends(s: seq<byte>, rest: seq<byte>)
    ensures ReadObject(s).Read? ==> ReadObject(s + rest) == ReadObject(s)
  {
    hide ReadHead, ReadValue, CText;
    HeadExtends(s, rest);
    if ReadObject(s).Read? {
      var h := ReadHead(s).value;
      var n := h.size + h.arg;
      assert (s + rest)[h.size..n] == s[h.size..n] && (s + rest)[n..] == s[n..] + rest;
      ValueExtends(s[n..], rest);
    }
  }

  // ----------------------------------------------------------------- header

  datatype Header = Header(total: nat, used: nat, count: nat)

  predicate HeaderFits(h: Header) {
    h.total < 0x1_0000_0000 && h.used < 0x1_0000_0000 && h.count < 0x1_0000_0000
  }

  /** Numbers of five bytes each, one after the other. */
  function Numbers(ns: seq<nat>): (s: seq<byte>)
    ensures |s| == 5 * |ns|
  {
    if ns == [] then [] else WideHead(UNSIGNED, ns[0], 4) + Numbers(ns[1..])
  }

  /** np_serializer_write_datablock_header: an array of four numbers. */
  function EncodeHeader(h: Header): (s: seq<byte>)
    ensures |s| == HEADER_SIZE
  {
    Head(ARRAY, 4) + Numbers([MAGIC_NO, h.total, h.used, h.count])
  }

  /** Up to n numbers of at most 32 bits, stopping at the first item that is none. */
  function ReadNumbers(s: seq<byte>, n: nat): (ns: seq<nat>)
    ensures |ns| <= n
    ensures forall i | 0 <= i < |ns| :: ns[i] < 0x1_0000_0000
  {
    if n == 0 then []
    else
      match ReadHead(s)
      case None => []
      case Some(h) =>
        if h.major == UNSIGNED && h.arg < 0x1_0000_0000 then [h.arg] + ReadNumbers(s[h.size..], n - 1) else []
  }

  /** np_serializer_read_datablock_header: the return code, and the fields read up to there
      (the caller's zeroes otherwise). */
  function ReadHeader(b: seq<byte>): (r: (Ret, Header))
    requires |b| >= HEADER_SIZE
    ensures HeaderFits(r.1)
    ensures !r.0.Ok? ==> r.1.count == 0
  {
    var s := b[..HEADER_SIZE];
    match ReadHead(s)
    case None => (InvalidArguments, Header(0, 0, 0))
    case Some(a) =>
      if !(a.major == ARRAY && a.arg == 4) then (InvalidArguments, Header(0, 0, 0))
      else HeaderFrom(ReadNumbers(s[a.size..], 4))
  }

  function HeaderFrom(ns: seq<nat>): (Ret, Header) {
    if |ns| == 0 || ns[0] != MAGIC_NO then (CouldNotReadMagicNo, Header(0, 0, 0))
    else if |ns| == 1 then (CouldNotReadTotalLength, Header(0, 0, 0))
    else if |ns| == 2 then (CouldNotReadUsedLength, Header(ns[1], 0, 0))
    else if |ns| == 3 then (CouldNotReadObjectCount, Header(ns[1], ns[2], 0))
    else (Ok, Header(ns[1], ns[2], ns[3]))
  }

  lemma {:induction false} ReadWrittenNumbers(ns: seq<nat>)
    requires forall i | 0 <= i < |ns| :: ns[i] < 0x1_0000_0000
    ensures ReadNumbers(Numbers(ns), |ns|) == ns
  {
    if ns != [] {
      var first, rest := WideHead(UNSIGNED, ns[0], 4), Numbers(ns[1..]);
      Pow256Values();
      ReadWideHead(UNSIGNED, ns[0], 4, rest);
      assert (first + rest)[5..] == rest;
      ReadWrittenNumbers(ns[1..]);
    }
  }

  lemma ReadWrittenHeader(h: Header, rest: seq<byte>)
    requires HeaderFits(h)
    ensures ReadHeader(EncodeHeader(h) + rest) == (Ok, h)
  {
    var ns := [MAGIC_NO, h.total, h.used, h.count];
    var s := EncodeHeader(h);
    assert (s + rest)[..HEADER_SIZE] == s;
    ReadWrittenHead(ARRAY, 4, Numbers(ns));
    assert s[1..] == Numbers(ns);
    ReadWrittenNumbers(ns);
  }

  lemma ReadNumbersStep(x: nat, more: seq<byte>, n: nat)
    requires x < 0x1_0000_0000 && n > 0
    ensures ReadNumbers(WideHead(UNSIGNED, x, 4) + more, n) == [x] + ReadNumbers(more, n - 1)
  {
    hide WideHead, ReadHead;
    Pow256Values();
    ReadWideHead(UNSIGNED, x, 4, more);
    assert (WideHead(UNSIGNED, x, 4) + more)[5..] == more;
  }

  /** Numbers followed by something that is none. */
  lemma {:induction false} ReadFewNumbers(ns: seq<nat>, rest: seq<byte>, n: nat)
    requires (forall i | 0 <= i < |ns| :: ns[i] < 0x1_0000_0000) && |ns| < n
    ensures ReadNumbers(Numbers(ns) + [0xFF] + rest, n) == ns
  {
    hide WideHead;
    if ns == [] {
      assert Numbers(ns) + [0xFF] + rest == [0xFF] + rest;
    } else {
      hide ReadHead;
      var more := Numbers(ns[1..]) + [0xFF] + rest;
      assert Numbers(ns) + [0xFF] + rest == WideHead(UNSIGNED, ns[0], 4) + more;
      ReadNumbersStep(ns[0], more, n);
      ReadFewNumbers(ns[1..], rest, n - 1);
    }
  }

  /** A header that breaks off is reported by the first field that is missing. */
  lemma BrokenHeader(ns: seq<nat>, rest: seq<byte>)
    requires |ns| < 4 && (forall i | 0 <= i < |ns| :: ns[i] < 0x1_0000_0000)
    requires 5 * |ns| + 2 + |rest| >= HEADER_SIZE && (ns != [] ==> ns[0] == MAGIC_NO)
    ensures ReadHeader(Head(ARRAY, 4) + Numbers(ns) + [0xFF] + rest).0
         == [CouldNotReadMagicNo, CouldNotReadTotalLength, CouldNotReadUsedLength, CouldNotReadObjectCount][|ns|]
  {
    hide Head, Numbers, ReadNumbers, ReadHead;
    var n := HEADER_SIZE - 5 * |ns| - 2;
    var body := Numbers(ns) + [0xFF] + rest[..n];
    CutHeader(Head(ARRAY, 4), Numbers(ns), rest, n);
    ReadWrittenHead(ARRAY, 4, body);
    assert (Head(ARRAY, 4) + body)[1..] == body;
    ReadFewNumbers(ns, rest[..n], 4);
  }

  lemma CutHeader(a: seq<byte>, b: seq<byte>, rest: seq<byte>, n: nat)
    requires n <= |rest| && |a| + |b| + 1 + n == HEADER_SIZE
    ensures (a + b + [0xFF] + rest)[..HEADER_SIZE] == a + (b + [0xFF] + rest[..n])
  {
  }

  /** A block with another magic number is not read. */
  lemma ForeignHeader(magic: nat, h: Header, rest: seq<byte>)
    requires magic < 0x1_0000_0000 && magic != MAGIC_NO && HeaderFits(h)
    ensures ReadHeader(Head(ARRAY, 4) + Numbers([magic, h.total, h.used, h.count]) + rest).0 == CouldNotReadMagicNo
  {
    var ns := [magic, h.total, h.used, h.count];
    var s := Head(ARRAY, 4) + Numbers(ns);
    assert (s + rest)[..HEADER_SIZE] == s;
    ReadWrittenHead(ARRAY, 4, Numbers(ns));
    assert s[1..] == Numbers(ns);
    ReadWrittenNumbers(ns);
  }
}
