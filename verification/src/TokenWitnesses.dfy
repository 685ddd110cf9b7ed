/** Libraries and tokens that meet the hypotheses of the theorems about hashes and stale
    flags: none of them is about nothing. */
module TokenWitnesses {
  import opened Bytes
  import opened KvCodec
  import opened Layout
  import opened Datablock
  import opened TokenModel
  import opened TokenTheorems

  // ------------------------------------------------------- telling times apart

  ghost function TimeCode(a: Token, d: real): byte {
    if d == a.expiresAt then 0 else if d == a.issuedAt then 1 else if d == a.notBefore then 2 else 3
  }

  /** For any two tokens there is a library that tells their times apart. */
  lemma LibraryTellsTimesApart(a: Token, b: Token) returns (c: Crypto)
    ensures TimesToldApart(c, a, b)
  {
    c := Trivial().(doubleBytes := d => [TimeCode(a, d)] + Zeros(7));
    assert forall d :: c.doubleBytes(d)[0] == TimeCode(a, d);
  }

  // ------------------------------------------------------------ a toy library

  ghost function First(m: seq<byte>): byte {
    if m == [] then 0 else m[0]
  }

  ghost function Second(m: seq<byte>): byte {
    if |m| < 2 then 0 else m[1]
  }

  ghost function Last(m: seq<byte>): byte {
    if m == [] then 0 else m[|m| - 1]
  }

  ghost function ToyHash(m: seq<byte>): (h: seq<byte>)
    ensures |h| == FINGERPRINT_SIZE && h[0] == First(m) && h[1] == Last(m)
  {
    [First(m), Last(m)] + Zeros(FINGERPRINT_SIZE - 2)
  }

  ghost function ToySign(m: seq<byte>): (s: seq<byte>)
    ensures |s| == SIGNATURE_SIZE && s[SIGNATURE_SIZE - 2] == Second(m) && s[SIGNATURE_SIZE - 1] == First(m)
  {
    Zeros(SIGNATURE_SIZE - 2) + [Second(m), First(m)]
  }

  /** Its hash keeps the first and the last byte of the input, its signature the first two
      bytes of the message. */
  ghost function Toy(): (c: Crypto) {
    Ops(m => ToyHash(m), sk => Zeros(PUBLIC_KEY_SIZE), (sk, m) => ToySign(m), (s, m, pk) => s == ToySign(m),
        pk => true, d => Zeros(8), v => 0)
  }

  ghost function EmptyAttributes(): (b: seq<byte>)
    ensures |b| == ATTRIBUTES_SIZE
  {
    EncodeHeader(Header(ATTRIBUTES_SIZE, HEADER_SIZE, 0)) + Zeros(ATTRIBUTES_SIZE - HEADER_SIZE)
  }

  lemma EmptyAttributesHold()
    ensures Holds(EmptyAttributes(), ATTRIBUTES_SIZE, [])
  {
    hide EncodeHeader;
    assert EmptyAttributes()[..HEADER_SIZE] == EncodeHeader(Header(ATTRIBUTES_SIZE, HEADER_SIZE, 0));
    assert Used([]) == HEADER_SIZE;
  }

  ghost function Plain(id: byte, last: byte): (t: Token)
    ensures Sized(t)
  {
    Token([id] + Zeros(UUID_SIZE - 1), [], [], [], [], 0.0, 0.0, 0.0, EmptyAttributes(), Zeros(SIGNATURE_SIZE),
          Zeros(PUBLIC_KEY_SIZE), Zeros(SIGNATURE_SIZE - 1) + [last], 0, 0, Private, true, false, false)
  }

  lemma PlainIsIssued(id: byte, last: byte)
    ensures Issued(Toy(), Plain(id, last), []) && AttributesReadable(Plain(id, last))
  {
    hide EncodeHeader, Parse, ReadHeader, EmptyAttributes;
    EmptyAttributesHold();
    HoldsDetermines(EmptyAttributes(), ATTRIBUTES_SIZE, []);
    WellFormedIsReadable(Plain(id, last));
  }

  lemma PlainHash(id: byte, last: byte)
    ensures First(TokenHash(Toy(), Plain(id, last))) == id
  {
    hide EmptyAttributes;
    var t := Plain(id, last);
    assert First(TokenInput(Toy(), t)) == t.uuid[0];
  }

  lemma HashSeesTheSignature(x: seq<byte>, s: seq<byte>)
    requires s != []
    ensures Second(Toy().hash(x + s)) == s[|s| - 1]
  {
    assert Last(x + s) == s[|s| - 1];
  }

  /** Signatures over two messages that differ in their second byte are not confused. */
  lemma ToyTellsApart(x: seq<byte>, s: seq<byte>, y: seq<byte>, sig: seq<byte>, pk: seq<byte>)
    requires |s| == |y| > 0 && s[|s| - 1] != y[|y| - 1]
    ensures NoCollision(Toy(), x + s, x + y)
    ensures SignsOne(Toy(), sig, Toy().hash(x + s), pk, Toy().hash(x + y), pk)
    ensures Toy().verify(sig, Toy().hash(x + s), pk) ==> !Toy().verify(sig, Toy().hash(x + y), pk)
  {
    HashSeesTheSignature(x, s);
    HashSeesTheSignature(x, y);
  }

  /** A self-signature alone does leave an attribute signature behind. */
  lemma SelfSignAloneGoesStale() returns (c: Crypto, t: Token)
    ensures CanSign(t.scope) && |t.signature| == SIGNATURE_SIZE && AttributesSignedBy(c, t, [])
    ensures SelfSignBinds(c, t, []) && !AttributesSignedBy(c, Signed(c, t, []), [])
  {
    hide ReadHeader, TokenHash, Toy, EmptyAttributes, UsedAttributes;
    c := Toy();
    PlainIsIssued(0, 1);
    PlainHash(0, 1);
    var t0 := Plain(0, 1);
    t := AttributesSigned(c, t0, []);
    SameAttributesHash(c, t0, t);
    SameTokenHash(c, t, t0);
    var s := c.sign([], TokenHash(c, t));
    assert s[SIGNATURE_SIZE - 1] == 0 by { ToySigns(TokenHash(c, t)); }
    ToyTellsApart(UsedAttributes(t), t.signature, s, t.attributesSignature, c.publicKey([]));
    SelfSignKeepsIff(c, t, []);
  }

  lemma ToySigns(m: seq<byte>)
    ensures |Toy().sign([], m)| == SIGNATURE_SIZE && Toy().sign([], m)[SIGNATURE_SIZE - 1] == First(m)
  {
  }

  /** Two tokens of one issuer on which the check does answer wrongly. */
  lemma AttributesDoOutliveTheirToken() returns (c: Crypto, t1: Token, t2: Token)
    ensures Issued(c, t1, []) && Issued(c, t2, []) && AttributesReadable(t1) && AttributesReadable(t2)
    ensures t1.kind == t2.kind == 0 && t1.expiresAt == t2.expiresAt == 0.0
    ensures SecondBinds(c, t1, t2, []) && Sent(c, t1, []).signature != Sent(c, t2, []).signature
  {
    hide ReadHeader, TokenHash, Toy, EmptyAttributes, UsedAttributes, Issued;
    c, t1, t2 := Toy(), Plain(0, 0), Plain(1, 0);
    PlainIsIssued(0, 0);
    PlainIsIssued(1, 0);
    PlainHash(0, 0);
    PlainHash(1, 0);
    ToySigns(TokenHash(c, t1));
    ToySigns(TokenHash(c, t2));
    var e1, e2 := Sent(c, t1, []), Sent(c, t2, []);
    ToyTellsApart(UsedAttributes(e1), e1.signature, e2.signature, e1.attributesSignature, e1.publicKey);
  }
}
