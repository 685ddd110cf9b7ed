/** The loop of np_serializer_search_object as a step function: on which blocks, whatever
    their bytes, a search comes to an answer, and that on the others it never does. */
module Walk {
  import opened Bytes
  import opened KvCodec
  import opened Layout
  import opened Datablock

  /** The cursor and the 16-bit counter, or the answer. */
  datatype Walk =
    | At(start: nat, read: uint16)
    | Found(obj: Obj)
    | NotFound

  const START := At(HEADER_SIZE, 0)

  /** One round of the loop. An object that cannot be read changes nothing. */
  function Round(b: seq<byte>, key: Key, w: Walk): Walk
    requires |b| >= HEADER_SIZE
  {
    if !w.At? then w
    else if w.read >= ReadHeader(b).1.count then NotFound
    else if w.start > |b| then w
    else
      match ReadObject(b[w.start..Limit(b, w.start, UsedOf(b))])
      case ReadError(_) => w
      case Read(o, size) => if o.key == key then Found(o) else At(w.start + size, Next(w.read))
  }

  function Rounds(b: seq<byte>, key: Key, n: nat): Walk
    requires |b| >= HEADER_SIZE
  {
    if n == 0 then START else Round(b, key, Rounds(b, key, n - 1))
  }

  /** The walk has passed the first k objects. */
  predicate Passed(b: seq<byte>, k: nat, w: Walk)
    requires |b| >= HEADER_SIZE && k <= |Contents(b)| && k <= GoalOf(b)
  {
    var limit := Limit(b, HEADER_SIZE, UsedOf(b));
    && w.At? && HEADER_SIZE <= w.start <= limit
    && (ReadHeader(b).1.count <= MAX_OBJECTS ==> w.read == k)
    && Parse(b[w.start..limit], GoalOf(b) - k) == Contents(b)[k..]
  }

  lemma SameLimit(b: seq<byte>, start: nat)
    requires |b| >= HEADER_SIZE && HEADER_SIZE <= start <= Limit(b, HEADER_SIZE, UsedOf(b))
    ensures Limit(b, start, UsedOf(b)) == Limit(b, HEADER_SIZE, UsedOf(b))
  {
    hide ReadHeader;
  }

  /** As long as the key has not been met, every round passes one object. */
  lemma {:induction false} RoundsPass(b: seq<byte>, key: Key, k: nat)
    requires |b| >= HEADER_SIZE && k <= |Contents(b)| && k <= GoalOf(b) && k <= Find(Contents(b), key)
    ensures Passed(b, k, Rounds(b, key, k))
  {
    hide ReadHeader, ReadObject, Parse, Find;
    var objs := Contents(b);
    if k == 0 {
      assert objs[0..] == objs;
    } else {
      RoundsPass(b, key, k - 1);
      var w := Rounds(b, key, k - 1);
      SameLimit(b, w.start);
      ParseStep(b, w.start, Limit(b, HEADER_SIZE, UsedOf(b)), objs, k - 1, GoalOf(b));
      assert k - 1 < Find(objs, key) && objs[k - 1].key != key;
    }
  }

  lemma {:induction false} AnswerStays(b: seq<byte>, key: Key, n: nat, m: nat)
    requires |b| >= HEADER_SIZE && n <= m
    requires Round(b, key, Rounds(b, key, n)) == Rounds(b, key, n)
    ensures Rounds(b, key, m) == Rounds(b, key, n)
  {
    hide Round;
    if n < m {
      AnswerStays(b, key, n, m - 1);
    }
  }

  /** What every long enough search has come to. */
  function Outcome(b: seq<byte>, key: Key): Option<Walk>
    requires |b| >= HEADER_SIZE
  {
    var objs := Contents(b);
    if Has(objs, key) then Some(Found(objs[Find(objs, key)]))
    else if |objs| == GoalOf(b) then Some(NotFound)
    else None
  }

  lemma LastRound(b: seq<byte>, key: Key, k: nat, w: Walk)
    requires |b| >= HEADER_SIZE && k == Find(Contents(b), key) && k <= GoalOf(b) && Passed(b, k, w)
    ensures var objs := Contents(b);
            Round(b, key, w)
            == if k < |objs| then Found(objs[k]) else if |objs| == GoalOf(b) then NotFound else w
  {
    hide ReadHeader, ReadObject, Parse, Find;
    var objs := Contents(b);
    SameLimit(b, w.start);
    if k < GoalOf(b) {
      ParseStep(b, w.start, Limit(b, HEADER_SIZE, UsedOf(b)), objs, k, GoalOf(b));
    }
  }

  /** After as many rounds as there are objects and one, the outcome is there for good; where
      there is none, the walk stands still in front of the object it cannot read. */
  lemma SearchSettles(b: seq<byte>, key: Key, n: nat)
    requires |b| >= HEADER_SIZE && n > |Contents(b)|
    ensures match Outcome(b, key)
            case Some(answer) => Rounds(b, key, n) == answer
            case None => Rounds(b, key, n).At? && Rounds(b, key, n) == Rounds(b, key, |Contents(b)|)
  {
    hide ReadHeader, Parse, Find, Round;
    var k := Find(Contents(b), key);
    RoundsPass(b, key, k);
    LastRound(b, key, k, Rounds(b, key, k));
    assert Rounds(b, key, k + 1) == Round(b, key, Rounds(b, key, k));
    RoundOfAnswer(b, key, Rounds(b, key, k + 1));
    AnswerStays(b, key, k + 1, n);
  }

  lemma RoundOfAnswer(b: seq<byte>, key: Key, w: Walk)
    requires |b| >= HEADER_SIZE
    ensures !w.At? ==> Round(b, key, w) == w
  {
  }

  /** A search comes to an answer exactly on searchable blocks: the key is met, or all the
      objects the header counts can be read and the counter can count them. */
  lemma SearchAnswersIff(b: seq<byte>, key: Key)
    requires |b| >= HEADER_SIZE
    ensures (exists n: nat :: !Rounds(b, key, n).At?) <==> Searchable(b, key)
  {
    hide ReadHeader, Parse, Find, Rounds;
    var m := |Contents(b)| + 1;
    SearchSettles(b, key, m);
    if Searchable(b, key) {
      assert !Rounds(b, key, m).At?;
    } else {
      forall n: nat ensures Rounds(b, key, n).At? {
        if n >= m {
          SearchSettles(b, key, n);
        } else {
          StillWalking(b, key, n, m);
        }
      }
    }
  }

  lemma {:induction false} StillWalking(b: seq<byte>, key: Key, n: nat, m: nat)
    requires |b| >= HEADER_SIZE && n <= m && Rounds(b, key, m).At?
    ensures Rounds(b, key, n).At?
  {
    hide Round;
    if n < m {
      RoundOfAnswer(b, key, Rounds(b, key, m - 1));
      StillWalking(b, key, n, m - 1);
    }
  }

  /** A block off the wire on which np_get_data does not return: a header that counts one
      object, and behind it a byte no object starts with. */
  lemma SearchNeverReturns(key: Key, n: nat)
    ensures var b := EncodeHeader(Header(HEADER_SIZE + 1, HEADER_SIZE + 1, 1)) + [0xFF];
            |b| >= HEADER_SIZE && Rounds(b, key, n) == START
  {
    hide EncodeHeader;
    var h := Header(HEADER_SIZE + 1, HEADER_SIZE + 1, 1);
    var b := EncodeHeader(h) + [0xFF];
    ReadWrittenHeader(h, [0xFF]);
    assert b[HEADER_SIZE..HEADER_SIZE + 1] == [0xFF];
    assert ReadObject([0xFF]).ReadError?;
    AnswerStays(b, key, 0, n);
  }
}
