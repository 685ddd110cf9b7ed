/** What the token operations promise together: a signed token survives the wire, remembered
    verification results stay true, and the attribute signature follows the attributes. */
module TokenTheorems {
  import opened Bytes
  import opened KvCodec
  import opened Layout
  import opened Datablock
  import opened DatablockRuns
  import opened TokenModel
  import opened FailedSets
  import opened Hex

  // ------------------------------------------------- encode, ship, decode

  /** A token whose issuer key fits its public key and whose attributes are in order. */
  ghost predicate Issued(c: Crypto, t: Token, secret: seq<byte>) {
    && Sized(t)
    && t.publicKey == c.publicKey(secret)
    && WellFormed(t.attributes) && TotalOf(t.attributes) == ATTRIBUTES_SIZE
    && CanSign(t.scope)
  }

  lemma WellFormedIsReadable(t: Token)
    requires WellFormed(t.attributes)
    ensures AttributesReadable(t) && Readable(t.attributes)
    ensures UsedOf(t.attributes) == Used(Contents(t.attributes))
  {
    hide ReadHeader, Holds;
    HeaderIsRead(t.attributes);
  }

  lemma WellFormedIsCheckable(t: Token)
    requires WellFormed(t.attributes)
    ensures AttributesReadable(t) && Checkable(t)
  {
    hide ReadHeader, Holds, Searchable, Parse;
    WellFormedIsReadable(t);
    ReadableIsSearchable(t.attributes, MAX_THRESHOLD);
    ReadableIsSearchable(t.attributes, MSG_THRESHOLD);
  }

  /** The token as sent: signed by its issuer, then encoded. */
  function Sent(c: Ops, t: Token, secret: seq<byte>): (e: Token)
    requires AttributesReadable(t)
    ensures AttributesReadable(e)
  {
    EncodedToken(c, Signed(c, t, secret), secret)
  }

  /** Decoding the fields of a token into any other restores them all; of the attributes
      the used prefix. The scope follows the receiving token's private key. */
  lemma DecodeRestores(c: Crypto, e: Token, data: Tree, into: Token)
    requires Sized(e) && AttributesReadable(e) && c.acceptsKey(e.publicKey)
    requires BuffersSized(into)
    ensures WellTyped(data + Fields(e))
    ensures var r := Decoded(c, data + Fields(e), into);
            && r.ret
            && r.t == e.(attributes := e.attributes[..UsedOf(e.attributes)] + into.attributes[UsedOf(e.attributes)..],
                         state := into.state, scope := UpdateScope(into).scope, privateKeyIsSet := into.privateKeyIsSet,
                         sigVerified := false, attrsVerified := false)
  {
    hide ReadHeader, StepIdentity, StepOrigin, StepPurpose, StepKey, StepTimes, StepSignature, StepAttributes;
    var d, zero := data + Fields(e), into.(scope := Undefined, kind := TYPE_UNDEFINED);
    EncodeReplacesAll(e, data);
    var s1 := StepIdentity(d, Decoding(zero, true));
    var s2 := StepPurpose(d, StepOrigin(d, s1));
    RestoreTexts(e, zero);
    var s3 := StepKey(c, d, s2);
    var s4 := StepTimes(d, s3);
    var s5 := StepSignature(d, s4);
    RestoreRest(c, e, s2);
    RestoreAttributes(e, s5);
  }

  lemma EncodeReplacesAll(e: Token, data: Tree)
    requires AttributesReadable(e)
    ensures data + Fields(e) == Fields(e)
  {
    hide ReadHeader;
    forall k: Field ensures k in Fields(e) {
      match k { case FType => case FUuid => case FRealm => case FIssuer => case FSubject => case FAudience =>
        case FPublicKey => case FExpires => case FIssued => case FNotBefore => case FSignature =>
        case FAttributes => case FAttributesSignature => }
    }
  }

  lemma RestoreTexts(e: Token, t: Token)
    requires Sized(e) && AttributesReadable(e)
    ensures WellTyped(Fields(e))
    ensures StepPurpose(Fields(e), StepOrigin(Fields(e), StepIdentity(Fields(e), Decoding(t, true))))
         == Decoding(t.(uuid := e.uuid, kind := e.kind, realm := e.realm, issuer := e.issuer,
                        subject := e.subject, audience := e.audience), true)
  {
    hide ReadHeader;
    assert e.uuid[..UUID_SIZE] == e.uuid;
    assert CopyText(e.realm, 255) == e.realm && CopyText(e.issuer, 65) == e.issuer;
    assert CopyText(e.subject, 255) == e.subject && CopyText(e.audience, 255) == e.audience;
  }

  lemma RestoreRest(c: Crypto, e: Token, s: Decoding)
    requires Sized(e) && AttributesReadable(e) && c.acceptsKey(e.publicKey) && s.ret
    ensures WellTyped(Fields(e))
    ensures StepSignature(Fields(e), StepTimes(Fields(e), StepKey(c, Fields(e), s)))
         == Decoding(s.t.(publicKey := e.publicKey, expiresAt := e.expiresAt, issuedAt := e.issuedAt,
                          notBefore := e.notBefore, signature := e.signature, sigVerified := false), true)
  {
    hide ReadHeader;
    assert e.publicKey[..PUBLIC_KEY_SIZE] == e.publicKey;
    assert e.signature[..SIGNATURE_SIZE] == e.signature;
  }

  lemma RestoreAttributes(e: Token, s: Decoding)
    requires Sized(e) && AttributesReadable(e) && s.ret
    requires BuffersSized(s.t)
    ensures WellTyped(Fields(e))
    ensures StepAttributes(Fields(e), s)
         == Decoding(s.t.(attributes := e.attributes[..UsedOf(e.attributes)] + s.t.attributes[UsedOf(e.attributes)..],
                          attributesSignature := e.attributesSignature, attrsVerified := false), true)
  {
    hide ReadHeader;
    var prefix := e.attributes[..UsedOf(e.attributes)];
    assert prefix[..|prefix|] == prefix;
    assert e.attributesSignature[..SIGNATURE_SIZE] == e.attributesSignature;
  }

  /** The received token carries the issuer's data, capacity and contents of the attributes included. */
  lemma ReceivedAttributes(c: Crypto, e: Token, data: Tree, into: Token)
    requires Sized(e) && WellFormed(e.attributes) && TotalOf(e.attributes) == ATTRIBUTES_SIZE
    requires c.acceptsKey(e.publicKey)
    requires BuffersSized(into)
    ensures AttributesReadable(e) && WellTyped(data + Fields(e))
    ensures var r := Decoded(c, data + Fields(e), into).t;
            && WellFormed(r.attributes) && Contents(r.attributes) == Contents(e.attributes)
            && AttributesReadable(r)
            && r.attributes[..UsedOf(r.attributes)] == e.attributes[..UsedOf(e.attributes)]
  {
    hide ReadHeader, Holds, Parse, Decoded;
    WellFormedIsReadable(e);
    DecodeRestores(c, e, data, into);
    OnlyThePrefixCounts(e.attributes, into.attributes[UsedOf(e.attributes)..]);
    WellFormedIsReadable(Decoded(c, data + Fields(e), into).t);
  }

  lemma SentIsSized(c: Crypto, t: Token, secret: seq<byte>)
    requires Sized(t) && AttributesReadable(t)
    ensures Sized(Sent(c, t, secret))
  {
    hide ReadHeader, TokenHash;
    assert |c.sign(secret, TokenHash(c, t))| == SIGNATURE_SIZE;
    var s := Signed(c, t, secret);
    assert |c.sign(secret, AttributesHash(c, s))| == SIGNATURE_SIZE;
  }

  /** The token hash covers nothing but these fields. */
  lemma SameTokenHash(c: Ops, a: Token, b: Token)
    requires a.uuid == b.uuid && a.realm == b.realm && a.issuer == b.issuer && a.subject == b.subject
    requires a.audience == b.audience && a.publicKey == b.publicKey
    requires a.expiresAt == b.expiresAt && a.issuedAt == b.issuedAt && a.notBefore == b.notBefore
    ensures TokenHash(c, a) == TokenHash(c, b)
  {
  }

  /** Both signatures of a received token verify. */
  lemma ReceivedVerifies(c: Crypto, t: Token, secret: seq<byte>, data: Tree, into: Token)
    requires Issued(c, t, secret)
    requires BuffersSized(into)
    ensures AttributesReadable(t)
    ensures var e := Sent(c, t, secret);
            && WellTyped(data + Fields(e))
            && var r := Decoded(c, data + Fields(e), into).t;
               SignatureVerifies(c, r) && AttributesVerify(c, r)
  {
    hide ReadHeader, Holds, Parse, Decoded, TokenHash;
    WellFormedIsReadable(t);
    SentIsSized(c, t, secret);
    var e := Sent(c, t, secret);
    DecodeRestores(c, e, data, into);
    ReceivedAttributes(c, e, data, into);
    var r := Decoded(c, data + Fields(e), into).t;
    SameTokenHash(c, t, r);
    assert AttributesHash(c, r) == AttributesHash(c, Signed(c, t, secret));
  }

  /** A token signed with its issuer key, encoded and decoded into a token of its own is
      judged valid for its type until it expires, and not a moment longer; an intent also
      needs both thresholds with the messages used not above the maximum. */
  lemma SignedTokenIsValidUntilItExpires(
      c: Crypto, t: Token, secret: seq<byte>, data: Tree, into: Token, expected: bv8, now: real)
    requires Issued(c, t, secret)
    requires BuffersSized(into)
    ensures AttributesReadable(t) && Readable(t.attributes)
    ensures var e := Sent(c, t, secret);
            && WellTyped(data + Fields(e))
            && var r := Decoded(c, data + Fields(e), into);
               && r.ret && Checkable(r.t)
               && (Check(c, r.t, expected, now).valid
                   <==> HasFlags(t.kind, expected) && now <= t.expiresAt
                        && (HasFlags(t.kind, TYPE_MESSAGE_INTENT) ==> ThresholdsHold(c, t.attributes)))
  {
    hide ReadHeader, Holds, Parse, Decoded, SignatureVerifies, AttributesVerify, Find, Check, Sized, Searchable;
    WellFormedIsReadable(t);
    SentIsSized(c, t, secret);
    var e := Sent(c, t, secret);
    DecodeRestores(c, e, data, into);
    ReceivedAttributes(c, e, data, into);
    ReceivedVerifies(c, t, secret, data, into);
    var r := Decoded(c, data + Fields(e), into).t;
    WellFormedIsCheckable(r);
    CachedAnswer(c, r, expected, now);
  }

  /** What a complete tree brings that the token would not have sent itself: longer texts are
      cut at the size of their arrays, and fields that may be missing keep what was there. */
  lemma DecodeTakesOver(c: Ops, d: Tree, t: Token)
    requires WellTyped(d) && BuffersSized(t) && Complete(d) && KeyAccepted(c, d)
    ensures var r := Decoded(c, d, t).t;
            && r.issuer == FirstOf(d[FIssuer].text, 65) && r.subject == FirstOf(d[FSubject].text, 255)
            && r.realm == (if FRealm in d then FirstOf(d[FRealm].text, 255) else t.realm)
            && r.audience == (if FAudience in d then FirstOf(d[FAudience].text, 255) else t.audience)
            && r.issuedAt == (if FIssued in d then d[FIssued].number else t.issuedAt)
            && r.notBefore == (if FNotBefore in d then d[FNotBefore].number else t.notBefore)
  {
    hide StepIdentity, StepOrigin, StepPurpose, StepKey, StepTimes, StepSignature, StepAttributes;
    var s1 := StepIdentity(d, Decoding(t.(scope := Undefined, kind := TYPE_UNDEFINED), true));
    var s2 := StepPurpose(d, StepOrigin(d, s1));
    TextsTaken(d, s1);
    TimesTaken(c, d, s2);
    IdentityKeeps(d, t.(scope := Undefined, kind := TYPE_UNDEFINED));
  }

  predicate SameTexts(a: Token, b: Token) {
    a.realm == b.realm && a.issuer == b.issuer && a.subject == b.subject && a.audience == b.audience
  }

  lemma IdentityKeeps(d: Tree, t: Token)
    requires WellTyped(d)
    ensures var r := StepIdentity(d, Decoding(t, true)).t;
            SameTexts(r, t) && r.issuedAt == t.issuedAt && r.notBefore == t.notBefore
  {
  }

  lemma TextsTaken(d: Tree, s: Decoding)
    requires WellTyped(d) && s.ret && FIssuer in d && FSubject in d
    ensures var r := StepPurpose(d, StepOrigin(d, s)).t;
            && r.issuer == FirstOf(d[FIssuer].text, 65) && r.subject == FirstOf(d[FSubject].text, 255)
            && r.realm == (if FRealm in d then FirstOf(d[FRealm].text, 255) else s.t.realm)
            && r.audience == (if FAudience in d then FirstOf(d[FAudience].text, 255) else s.t.audience)
            && r.issuedAt == s.t.issuedAt && r.notBefore == s.t.notBefore
  {
    hide CopyText;
    TextCut(d[FIssuer].text, 65);
    TextCut(d[FSubject].text, 255);
    if FRealm in d { TextCut(d[FRealm].text, 255); }
    if FAudience in d { TextCut(d[FAudience].text, 255); }
  }

  lemma TextCut(s: seq<byte>, n: nat)
    ensures CopyText(s, n) == FirstOf(s, n)
  {
  }

  lemma TimesTaken(c: Ops, d: Tree, s: Decoding)
    requires WellTyped(d) && s.ret && Complete(d) && KeyAccepted(c, d) && BuffersSized(s.t)
    ensures var e := StepAttributes(d, StepSignature(d, StepTimes(d, StepKey(c, d, s)))).t;
            && SameTexts(e, s.t)
            && e.issuedAt == (if FIssued in d then d[FIssued].number else s.t.issuedAt)
            && e.notBefore == (if FNotBefore in d then d[FNotBefore].number else s.t.notBefore)
  {
    hide StepKey, StepTimes, StepSignature, StepAttributes;
    var s1 := StepKey(c, d, s);
    var s2 := StepTimes(d, s1);
    KeyKeeps(c, d, s);
    TimesStep(d, s1);
    SignatureKeeps(d, s2);
    AttributesKeep(d, StepSignature(d, s2));
  }

  predicate SameTextsAndTimes(a: Token, b: Token) {
    SameTexts(a, b) && a.issuedAt == b.issuedAt && a.notBefore == b.notBefore
  }

  lemma KeyKeeps(c: Ops, d: Tree, s: Decoding)
    requires WellTyped(d)
    ensures SameTextsAndTimes(StepKey(c, d, s).t, s.t)
  {
  }

  lemma SignatureKeeps(d: Tree, s: Decoding)
    requires WellTyped(d)
    ensures SameTextsAndTimes(StepSignature(d, s).t, s.t)
  {
  }

  lemma AttributesKeep(d: Tree, s: Decoding)
    requires WellTyped(d) && BuffersSized(s.t)
    ensures SameTextsAndTimes(StepAttributes(d, s).t, s.t)
  {
    hide CopyOver;
  }

  lemma TimesStep(d: Tree, s: Decoding)
    requires WellTyped(d) && s.ret && FExpires in d
    ensures var e := StepTimes(d, s).t;
            && SameTexts(e, s.t)
            && e.issuedAt == (if FIssued in d then d[FIssued].number else s.t.issuedAt)
            && e.notBefore == (if FNotBefore in d then d[FNotBefore].number else s.t.notBefore)
  {
  }

  function FirstOf(s: seq<byte>, n: nat): seq<byte> {
    if |s| <= n then s else s[..n]
  }

  // ------------------------------------------- remembered verification

  /** A set flag is right about the current fields. */
  predicate CacheSound(c: Ops, t: Token) {
    (t.sigVerified ==> SignatureVerifies(c, t)) && (t.attrsVerified ==> AttributesVerify(c, t))
  }

  lemma SameAttributesVerify(c: Ops, a: Token, b: Token)
    requires a.attributes == b.attributes && a.attributesSignature == b.attributesSignature
    requires a.signature == b.signature && a.publicKey == b.publicKey
    ensures AttributesVerify(c, a) == AttributesVerify(c, b)
  {
    hide ReadHeader;
  }

  /** With a sound cache the check answers like one that always verifies, and keeps it sound. */
  lemma CachedAnswer(c: Ops, t: Token, expected: bv8, now: real)
    requires Checkable(t) && CacheSound(c, t)
    ensures Check(c, t, expected, now).valid == FullyValid(c, t, expected, now)
    ensures CacheSound(c, Checked(c, t, expected, now))
  {
    hide Checkable, AttributesVerify, TokenHash, IntentHolds, HasFlags;
    var t' := Checked(c, t, expected, now);
    SameTokenHash(c, t, t');
    SameAttributesVerify(c, t, t');
  }

  /** The fields without which decode fails or leaves a flag standing. */
  predicate Complete(d: Tree) {
    && FUuid in d && FType in d && FIssuer in d && FSubject in d && FPublicKey in d
    && FExpires in d && FSignature in d && FAttributes in d && FAttributesSignature in d
  }

  /** The library accepts the public key of the tree, if there is one. */
  predicate KeyAccepted(c: Ops, d: Tree)
    requires WellTyped(d)
  {
    FPublicKey in d ==> c.acceptsKey(d[FPublicKey].bytes[..PUBLIC_KEY_SIZE])
  }

  /** A complete tree clears both flags; a tree without uuid changes nothing they vouch for. */
  lemma DecodeKeepsCacheSound(c: Ops, d: Tree, t: Token)
    requires WellTyped(d) && BuffersSized(t) && CacheSound(c, t)
    requires (Complete(d) && KeyAccepted(c, d)) || FUuid !in d
    ensures CacheSound(c, Decoded(c, d, t).t)
    ensures FUuid in d ==> Decoded(c, d, t).ret
  {
    hide ReadHeader, TokenHash, AttributesVerify, CopyText, CopyOver;
    var r := Decoded(c, d, t).t;
    if FUuid !in d {
      SameTokenHash(c, t, r);
      SameAttributesVerify(c, t, r);
    }
  }

  // --------------------------------- runs of decodes and checks

  datatype Call = Decode(d: Tree) | Probe(expected: bv8, now: real)

  predicate Admissible(c: Ops, t: Token, call: Call) {
    match call
    case Decode(d) => WellTyped(d) && BuffersSized(t) && ((Complete(d) && KeyAccepted(c, d)) || FUuid !in d)
    case Probe(_, _) => Checkable(t)
  }

  function After(c: Ops, t: Token, call: Call): Token
    requires Admissible(c, t, call)
  {
    match call
    case Decode(d) => Decoded(c, d, t).t
    case Probe(expected, now) => Checked(c, t, expected, now)
  }

  ghost predicate IsTokenRun(c: Ops, ts: seq<Token>, calls: seq<Call>) {
    && |ts| == |calls| + 1
    && forall i | 0 <= i < |calls| :: Admissible(c, ts[i], calls[i]) && ts[i + 1] == After(c, ts[i], calls[i])
  }

  lemma {:induction false} RunKeepsCacheSound(c: Ops, ts: seq<Token>, calls: seq<Call>, n: nat)
    requires IsTokenRun(c, ts, calls) && CacheSound(c, ts[0]) && n <= |calls|
    ensures CacheSound(c, ts[n])
  {
    hide CacheSound, Decoded, Checked, Checkable;
    if n > 0 {
      RunKeepsCacheSound(c, ts, calls, n - 1);
      assert Admissible(c, ts[n - 1], calls[n - 1]) && ts[n] == After(c, ts[n - 1], calls[n - 1]);
      match calls[n - 1] {
        case Decode(d) => DecodeKeepsCacheSound(c, d, ts[n - 1]);
        case Probe(expected, now) => CachedAnswer(c, ts[n - 1], expected, now);
      }
    }
  }

  /** Cached validation refines full validation over every run from a cleared token. */
  lemma CachedRefinesFull(c: Ops, ts: seq<Token>, calls: seq<Call>, n: nat)
    requires IsTokenRun(c, ts, calls) && !ts[0].sigVerified && !ts[0].attrsVerified
    requires n < |calls| && calls[n].Probe?
    ensures Checkable(ts[n])
    ensures Check(c, ts[n], calls[n].expected, calls[n].now).valid
         == FullyValid(c, ts[n], calls[n].expected, calls[n].now)
  {
    hide Decoded, Check, Checkable, FullyValid;
    RunKeepsCacheSound(c, ts, calls, n);
    assert Admissible(c, ts[n], calls[n]);
    CachedAnswer(c, ts[n], calls[n].expected, calls[n].now);
  }

  /** A new token is issued and good from now on, for its lifetime, and has no attributes. */
  lemma NewTokensStartNow(t: Token, id: seq<byte>, now: real, lifetime: real, key: Key)
    requires IsNew(t, id, now, lifetime)
    ensures t.uuid == id && t.issuedAt == now && t.notBefore == now && t.expiresAt == now + lifetime
    ensures WellFormed(t.attributes) && TotalOf(t.attributes) == ATTRIBUTES_SIZE
    ensures Lookup(Contents(t.attributes), key).None?
  {
    hide Holds, ReadHeader, Parse;
    HoldsDetermines(t.attributes, ATTRIBUTES_SIZE, []);
  }

  /** In particular over every run from a newly constructed token. */
  lemma NewTokensAreJudgedFully(
      c: Ops, ts: seq<Token>, calls: seq<Call>, id: seq<byte>, start: real, lifetime: real, n: nat)
    requires IsTokenRun(c, ts, calls) && IsNew(ts[0], id, start, lifetime)
    requires n < |calls| && calls[n].Probe?
    ensures Checkable(ts[n])
    ensures Check(c, ts[n], calls[n].expected, calls[n].now).valid
         == FullyValid(c, ts[n], calls[n].expected, calls[n].now)
  {
    hide Decoded, Check, Checkable, FullyValid, Holds;
    CachedRefinesFull(c, ts, calls, n);
  }

  // ------------------------------------- an incomplete decode goes stale

  /** The library does not confuse these two inputs. */
  predicate NoCollision(c: Ops, x: seq<byte>, y: seq<byte>) {
    c.hash(x) == c.hash(y) ==> x == y
  }

  /** This signature is not good for two of these messages or keys. */
  predicate SignsOne(c: Ops, sig: seq<byte>, m: seq<byte>, pk: seq<byte>, m': seq<byte>, pk': seq<byte>) {
    c.verify(sig, m, pk) && c.verify(sig, m', pk') ==> m == m' && pk == pk'
  }

  /** Both for what the attribute signature of t covers, in t and in r. */
  predicate AttributesBind(c: Ops, t: Token, r: Token)
    requires AttributesReadable(t)
  {
    AttributesReadable(r) ==>
      && NoCollision(c, AttributesInput(t), AttributesInput(r))
      && SignsOne(c, t.attributesSignature, AttributesHash(c, t), t.publicKey, AttributesHash(c, r), r.publicKey)
  }

  predicate SignatureBinds(c: Ops, t: Token, r: Token) {
    && NoCollision(c, TokenInput(c, t), TokenInput(c, r))
    && SignsOne(c, t.signature, TokenHash(c, t), t.publicKey, TokenHash(c, r), r.publicKey)
  }

  /** A token a check has found valid. */
  predicate Proven(c: Ops, t: Token) {
    t.sigVerified && t.attrsVerified && CacheSound(c, t)
  }

  /** All the fields decode needs before it copies the signature. */
  predicate ReachesSignature(d: Tree) {
    && FUuid in d && FType in d && FIssuer in d && FSubject in d && FPublicKey in d && FExpires in d && FSignature in d
  }

  /** What decode leaves behind when a field is missing or the key is refused. */
  lemma DecodeLeaves(c: Ops, d: Tree, t: Token)
    requires WellTyped(d) && BuffersSized(t) && FUuid in d && !(Complete(d) && KeyAccepted(c, d))
    ensures var r := Decoded(c, d, t).t;
            && r.uuid == d[FUuid].bytes[..UUID_SIZE]
            && r.attrsVerified == t.attrsVerified && r.attributesSignature == t.attributesSignature
            && r.privateKeyIsSet == t.privateKeyIsSet && r.scope == UpdateScope(t).scope
            && (FAttributes !in d ==> r.attributes == t.attributes)
            && (if ReachesSignature(d) && KeyAccepted(c, d) then
                  r.signature == d[FSignature].bytes[..SIGNATURE_SIZE] && !r.sigVerified
                else r.signature == t.signature && r.sigVerified == t.sigVerified)
  {
    hide StepIdentity, StepOrigin, StepPurpose, StepKey, StepTimes;
  }

  /** The decode has not changed anything a flag it left standing vouches for. */
  predicate Unaltered(c: Ops, t: Token, r: Token)
    requires AttributesReadable(t)
  {
    && r.publicKey == t.publicKey
    && AttributesReadable(r) && AttributesInput(r) == AttributesInput(t)
    && (r.sigVerified ==> TokenInput(c, r) == TokenInput(c, t))
  }

  /** After an incomplete decode the standing flags are right exactly when nothing they vouch
      for has been altered, whatever the library. */
  lemma StandingFlags(c: Ops, d: Tree, t: Token)
    requires WellTyped(d) && BuffersSized(t) && FUuid in d && !(Complete(d) && KeyAccepted(c, d)) && Proven(c, t)
    requires AttributesBind(c, t, Decoded(c, d, t).t)
    requires Decoded(c, d, t).t.sigVerified ==> SignatureBinds(c, t, Decoded(c, d, t).t)
    ensures CacheSound(c, Decoded(c, d, t).t) <==> Unaltered(c, t, Decoded(c, d, t).t)
  {
    hide ReadHeader, Decoded, TokenInput, UsedAttributes, AttributesInput;
    DecodeLeaves(c, d, t);
  }

  lemma KeyIsTakenOver(c: Ops, d: Tree, t: Token)
    requires WellTyped(d) && BuffersSized(t) && ReachesSignature(d)
    ensures Decoded(c, d, t).t.publicKey == d[FPublicKey].bytes[..PUBLIC_KEY_SIZE]
  {
    hide StepIdentity, StepOrigin, StepPurpose;
  }

  /** For a decode that reports success without attributes the condition can be read off the
      tree: the flags stay right exactly when it brings the same key and the same signature. */
  lemma WithoutAttributesIff(c: Ops, d: Tree, t: Token)
    requires WellTyped(d) && BuffersSized(t) && Proven(c, t) && |t.signature| == SIGNATURE_SIZE
    requires ReachesSignature(d) && KeyAccepted(c, d) && FAttributes !in d
    requires AttributesBind(c, t, Decoded(c, d, t).t)
    ensures CacheSound(c, Decoded(c, d, t).t)
       <==> && d[FPublicKey].bytes[..PUBLIC_KEY_SIZE] == t.publicKey
            && d[FSignature].bytes[..SIGNATURE_SIZE] == t.signature
  {
    hide ReadHeader, Decoded, TokenInput, CacheSound, AttributesBind;
    ProvenIsReadable(c, t);
    DecodeLeaves(c, d, t);
    KeyIsTakenOver(c, d, t);
    StandingFlags(c, d, t);
    SameUsed(Decoded(c, d, t).t, t);
    AttributesHashCovers(Decoded(c, d, t).t, t);
  }

  /** A check after it answers wrongly exactly when it answers true and something has been
      altered. */
  lemma WrongAnswerIff(c: Ops, d: Tree, t: Token, expected: bv8, now: real)
    requires WellTyped(d) && BuffersSized(t) && FUuid in d && !(Complete(d) && KeyAccepted(c, d)) && Proven(c, t)
    requires AttributesBind(c, t, Decoded(c, d, t).t)
    requires Decoded(c, d, t).t.sigVerified ==> SignatureBinds(c, t, Decoded(c, d, t).t)
    requires Checkable(Decoded(c, d, t).t) && !t.privateKeyIsSet
    ensures var r := Decoded(c, d, t).t;
            && (FullyValid(c, r, expected, now) ==> Check(c, r, expected, now).valid)
            && (Check(c, r, expected, now).valid && !FullyValid(c, r, expected, now)
                <==> Check(c, r, expected, now).valid && !Unaltered(c, t, r))
  {
    hide ReadHeader, Decoded, Unaltered, SignatureVerifies, AttributesVerify, IntentHolds, Checkable, HasFlags;
    hide AttributesBind, SignatureBinds;
    StandingFlags(c, d, t);
    DecodeLeaves(c, d, t);
    assert !CanSign(Decoded(c, d, t).t.scope);
  }

  lemma OtherUuid(c: Ops, a: Token, b: Token)
    requires |a.uuid| == |b.uuid| && TokenInput(c, a) == TokenInput(c, b)
    ensures a.uuid == b.uuid
  {
    var n := |a.uuid|;
    assert a.uuid == TokenInput(c, a)[..n] && b.uuid == TokenInput(c, b)[..n];
  }

  /** What a token has become when it was sent, received and found valid. */
  function ReceivedAndChecked(c: Ops, e: Token, into: Token, expected: bv8, now: real): Token
    requires AttributesReadable(e) && WellTyped(Fields(e)) && BuffersSized(into)
    requires Checkable(Decoded(c, Fields(e), into).t)
  {
    Checked(c, Decoded(c, Fields(e), into).t, expected, now)
  }

  /** Any issued token, received into one without a private key and checked true, is proven. */
  lemma ReceivedIsProven(c: Crypto, t: Token, secret: seq<byte>, into: Token, expected: bv8, now: real)
    requires Issued(c, t, secret) && BuffersSized(into) && !into.privateKeyIsSet
    requires HasFlags(t.kind, expected) && now <= t.expiresAt
    requires HasFlags(t.kind, TYPE_MESSAGE_INTENT) ==> ThresholdsHold(c, t.attributes)
    ensures AttributesReadable(t)
    ensures var e := Sent(c, t, secret);
            && WellTyped(Fields(e)) && Complete(Fields(e)) && KeyAccepted(c, Fields(e))
            && Checkable(Decoded(c, Fields(e), into).t)
            && Check(c, Decoded(c, Fields(e), into).t, expected, now).valid
            && var p := ReceivedAndChecked(c, e, into, expected, now);
               && Proven(c, p) && BuffersSized(p) && !p.privateKeyIsSet
               && p.uuid == t.uuid && p.signature == e.signature && p.publicKey == t.publicKey
               && p.attributesSignature == e.attributesSignature
               && AttributesReadable(p) && UsedAttributes(p) == UsedAttributes(e)
               && WellFormed(p.attributes) && Contents(p.attributes) == Contents(t.attributes)
  {
    hide ReadHeader, Holds, Parse, Decoded, SignatureVerifies, AttributesVerify, Find, Sized, HasFlags, ThresholdsHold;
    hide Check, Fields, TokenHash, AttributesHash, Checkable, UsedAttributes, Searchable;
    WellFormedIsReadable(t);
    var e := Sent(c, t, secret);
    KeyOfIssued(c, t, secret);
    EncodeReplacesAll(e, map[]);
    ReceivedFields(c, t, secret, into);
    SignedTokenIsValidUntilItExpires(c, t, secret, map[], into, expected, now);
    var q := Decoded(c, Fields(e), into).t;
    CheckedTrueIsProven(c, q, expected, now);
    SameUsed(Checked(c, q, expected, now), q);
  }

  lemma CheckedTrueIsProven(c: Ops, q: Token, expected: bv8, now: real)
    requires Checkable(q) && !q.sigVerified && !q.attrsVerified && q.scope.Public? && Check(c, q, expected, now).valid
    ensures Proven(c, Checked(c, q, expected, now))
  {
    hide Checkable, SignatureVerifies, AttributesVerify, IntentHolds, HasFlags;
    CachedAnswer(c, q, expected, now);
  }

  lemma ReceivedFields(c: Crypto, t: Token, secret: seq<byte>, into: Token)
    requires Issued(c, t, secret) && BuffersSized(into) && !into.privateKeyIsSet && AttributesReadable(t)
    ensures var e := Sent(c, t, secret);
            && WellTyped(Fields(e))
            && var q := Decoded(c, Fields(e), into).t;
               && !q.sigVerified && !q.attrsVerified && q.scope.Public? && !q.privateKeyIsSet && BuffersSized(q)
               && q.uuid == t.uuid && q.signature == e.signature && q.publicKey == t.publicKey
               && q.attributesSignature == e.attributesSignature
               && AttributesReadable(q) && UsedAttributes(q) == UsedAttributes(e)
               && WellFormed(q.attributes) && Contents(q.attributes) == Contents(t.attributes)
  {
    hide ReadHeader, Holds, Parse, Decoded, Fields, TokenHash, AttributesHash;
    SentIsSized(c, t, secret);
    var e := Sent(c, t, secret);
    EncodeReplacesAll(e, map[]);
    DecodeRestores(c, e, map[], into);
    ReceivedAttributes(c, e, map[], into);
  }

  lemma KeyOfIssued(c: Crypto, t: Token, secret: seq<byte>)
    requires Issued(c, t, secret) && AttributesReadable(t)
    ensures var e := Sent(c, t, secret);
            WellTyped(Fields(e)) && Complete(Fields(e)) && KeyAccepted(c, Fields(e))
  {
    hide ReadHeader, TokenHash, AttributesHash, Fields, WellFormed;
    SentIsSized(c, t, secret);
    var e := Sent(c, t, secret);
    assert e.publicKey[..PUBLIC_KEY_SIZE] == c.publicKey(secret);
    FieldsAreComplete(e);
  }

  lemma FieldsAreComplete(e: Token)
    requires Sized(e) && AttributesReadable(e)
    ensures Complete(Fields(e)) && Fields(e)[FPublicKey] == Binary(e.publicKey) && WellTyped(Fields(e))
  {
    hide ReadHeader;
    FieldsAreTyped(e);
  }

  lemma FieldsAreTyped(e: Token)
    requires Sized(e) && AttributesReadable(e)
    ensures WellTyped(Fields(e))
  {
    hide ReadHeader;
  }

  /** The exact counterpart of DecodeKeepsCacheSound, for every library. A token received and
      found valid goes stale with every tree that has a uuid, misses a later field or brings
      a refused key, and differs from it: in the uuid where decode stops before the
      signature, in the signature where it gets that far. */
  lemma IncompleteDecodeGoesStale(
      c: Crypto, t: Token, secret: seq<byte>, into: Token, expected: bv8, now: real, d: Tree)
    requires Issued(c, t, secret) && BuffersSized(into) && !into.privateKeyIsSet
    requires HasFlags(t.kind, expected) && now <= t.expiresAt
    requires HasFlags(t.kind, TYPE_MESSAGE_INTENT) ==> ThresholdsHold(c, t.attributes)
    requires WellTyped(d) && FUuid in d && !(Complete(d) && KeyAccepted(c, d))
    requires AttributesReadable(t) && WellTyped(Fields(Sent(c, t, secret)))
    requires Checkable(Decoded(c, Fields(Sent(c, t, secret)), into).t)
    requires var p := ReceivedAndChecked(c, Sent(c, t, secret), into, expected, now);
             && AttributesReadable(p) && BuffersSized(p)
             && AttributesBind(c, p, Decoded(c, d, p).t) && SignatureBinds(c, p, Decoded(c, d, p).t)
    requires if ReachesSignature(d) && KeyAccepted(c, d)
             then d[FSignature].bytes[..SIGNATURE_SIZE] != Sent(c, t, secret).signature
             else d[FUuid].bytes[..UUID_SIZE] != t.uuid
    ensures var p := ReceivedAndChecked(c, Sent(c, t, secret), into, expected, now);
            Proven(c, p) && !CacheSound(c, Decoded(c, d, p).t)
  {
    hide ReadHeader, Decoded, Checkable, Sent, ReceivedAndChecked, CacheSound, Fields, AttributesBind, SignatureBinds;
    hide HasFlags, ThresholdsHold, TokenInput;
    ReceivedIsProven(c, t, secret, into, expected, now);
    var p := ReceivedAndChecked(c, Sent(c, t, secret), into, expected, now);
    ProvenIsReadable(c, p);
    StandingFlags(c, d, p);
    DecodeLeaves(c, d, p);
    var r := Decoded(c, d, p).t;
    if Unaltered(c, p, r) {
      if r.sigVerified {
        OtherUuid(c, r, p);
      } else {
        OtherSignature(c, t, secret, p);
        AttributesHashCovers(r, p);
      }
      assert false;
    }
  }

  lemma ProvenIsReadable(c: Ops, t: Token)
    requires Proven(c, t)
    ensures AttributesReadable(t)
  {
    hide ReadHeader;
  }

  lemma OtherSignature(c: Crypto, t: Token, secret: seq<byte>, p: Token)
    requires AttributesReadable(t) && p.signature == Sent(c, t, secret).signature
    ensures |p.signature| == SIGNATURE_SIZE
  {
    hide ReadHeader, TokenHash, AttributesHash;
    assert |c.sign(secret, TokenHash(c, t))| == SIGNATURE_SIZE;
  }

  /** The fields of a token that is sent on without its attributes. */
  function WithoutAttributes(d: Tree): Tree {
    d - {FAttributes, FAttributesSignature}
  }

  /** What decode makes of them: a success that takes over everything else. */
  lemma DecodeWithoutAttributes(c: Crypto, e: Token, into: Token)
    requires Sized(e) && AttributesReadable(e) && c.acceptsKey(e.publicKey) && BuffersSized(into)
    ensures WellTyped(WithoutAttributes(Fields(e)))
    ensures Decoded(c, WithoutAttributes(Fields(e)), into)
         == Decoding(e.(attributes := into.attributes, attributesSignature := into.attributesSignature,
                        state := into.state, scope := UpdateScope(into).scope, privateKeyIsSet := into.privateKeyIsSet,
                        sigVerified := false, attrsVerified := into.attrsVerified), true)
  {
    hide ReadHeader, StepIdentity, StepOrigin, StepPurpose, StepKey, StepTimes, StepSignature, Fields, SameField;
    hide WithoutAttributes;
    var d, d', zero := Fields(e), WithoutAttributes(Fields(e)), into.(scope := Undefined, kind := TYPE_UNDEFINED);
    RestoreTexts(e, zero);
    OtherFieldsStay(d);
    var s0 := Decoding(zero, true);
    var s1 := StepIdentity(d, s0);
    var s2 := StepOrigin(d, s1);
    var s3 := StepPurpose(d, s2);
    SameSteps(d, d', s0);
    SameSteps(d, d', s1);
    SameSteps(d, d', s2);
    RestoreRest(c, e, s3);
    SameLaterSteps(c, d, d', s3);
    SameLaterSteps(c, d, d', StepKey(c, d, s3));
    SameLaterSteps(c, d, d', StepTimes(d, StepKey(c, d, s3)));
  }

  /** Two trees agree on a field. */
  predicate SameField(d: Tree, d': Tree, k: Field) {
    (k in d <==> k in d') && (k in d ==> d[k] == d'[k])
  }

  /** Leaving out the attributes changes nothing for the other fields. */
  lemma OtherFieldsStay(d: Tree)
    requires WellTyped(d)
    ensures WellTyped(WithoutAttributes(d)) && FAttributes !in WithoutAttributes(d)
    ensures forall k: Field | k != FAttributes && k != FAttributesSignature :: SameField(d, WithoutAttributes(d), k)
  {
    TypedWithoutAttributes(d);
    hide WellTyped;
  }

  lemma TypedWithoutAttributes(d: Tree)
    requires WellTyped(d)
    ensures WellTyped(WithoutAttributes(d))
  {
  }

  lemma SameSteps(d: Tree, d': Tree, s: Decoding)
    requires WellTyped(d) && WellTyped(d')
    requires forall k: Field | k != FAttributes && k != FAttributesSignature :: SameField(d, d', k)
    ensures StepIdentity(d', s) == StepIdentity(d, s) && StepOrigin(d', s) == StepOrigin(d, s)
    ensures StepPurpose(d', s) == StepPurpose(d, s)
  {
    hide CopyText;
    assert SameField(d, d', FUuid) && SameField(d, d', FType) && SameField(d, d', FRealm) && SameField(d, d', FIssuer);
    assert SameField(d, d', FSubject) && SameField(d, d', FAudience);
  }

  lemma SameLaterSteps(c: Ops, d: Tree, d': Tree, s: Decoding)
    requires WellTyped(d) && WellTyped(d')
    requires forall k: Field | k != FAttributes && k != FAttributesSignature :: SameField(d, d', k)
    ensures StepKey(c, d', s) == StepKey(c, d, s) && StepTimes(d', s) == StepTimes(d, s)
    ensures StepSignature(d', s) == StepSignature(d, s)
  {
    assert SameField(d, d', FPublicKey) && SameField(d, d', FExpires) && SameField(d, d', FIssued);
    assert SameField(d, d', FNotBefore) && SameField(d, d', FSignature);
  }

  /** A wrong answer from a cleared token, for every library: a first token is received and
      found valid; a second one of the same issuer arrives without its attributes, which
      decode reports as success; the check answers true again, on the first one's attributes,
      although their signature does not verify unless the two token signatures are the same. */
  lemma AttributesOutliveTheirToken(
      c: Crypto, t1: Token, t2: Token, secret: seq<byte>, into: Token, expected: bv8, now: real)
    requires Issued(c, t1, secret) && Issued(c, t2, secret) && BuffersSized(into) && !into.privateKeyIsSet
    requires HasFlags(t1.kind, expected) && HasFlags(t2.kind, expected) && now <= t1.expiresAt && now <= t2.expiresAt
    requires HasFlags(t1.kind, TYPE_MESSAGE_INTENT) || HasFlags(t2.kind, TYPE_MESSAGE_INTENT) ==>
               ThresholdsHold(c, t1.attributes)
    requires AttributesReadable(t1) && AttributesReadable(t2)
    requires SecondBinds(c, t1, t2, secret)
    ensures var (e1, e2) := (Sent(c, t1, secret), Sent(c, t2, secret));
            && WellTyped(Fields(e1)) && WellTyped(WithoutAttributes(Fields(e2)))
            && Checkable(Decoded(c, Fields(e1), into).t)
            && Decoded(c, Fields(e1), into).ret && Check(c, Decoded(c, Fields(e1), into).t, expected, now).valid
            && var p := ReceivedAndChecked(c, e1, into, expected, now);
               && BuffersSized(p)
               && var r := Decoded(c, WithoutAttributes(Fields(e2)), p);
                  && r.ret && Checkable(r.t) && Check(c, r.t, expected, now).valid
                  && (FullyValid(c, r.t, expected, now) <==> e1.signature == e2.signature)
  {
    hide ReadHeader, Holds, Parse, Decoded, Find, Sized, HasFlags, ThresholdsHold, Fields, TokenHash, Sent;
    hide Checkable, Check, FullyValid;
    ReceivedIsProven(c, t1, secret, into, expected, now);
    ReceivedRet(c, t1, secret, into);
    var e1, e2 := Sent(c, t1, secret), Sent(c, t2, secret);
    var p := ReceivedAndChecked(c, e1, into, expected, now);
    SecondReceived(c, t2, secret, p);
    var r := Decoded(c, WithoutAttributes(Fields(e2)), p).t;
    SecondCheck(c, p, r, expected, now, t1.attributes);
    SecondAttributes(c, t1, t2, secret, p, r);
  }

  /** The library does not confuse what the first attribute signature covers with what it
      would have to cover. */
  predicate SecondBinds(c: Ops, t1: Token, t2: Token, secret: seq<byte>)
    requires AttributesReadable(t1) && AttributesReadable(t2)
  {
    var e1, e2 := Sent(c, t1, secret), Sent(c, t2, secret);
    var m, m' := UsedAttributes(e1) + e1.signature, UsedAttributes(e1) + e2.signature;
    && NoCollision(c, m, m')
    && SignsOne(c, e1.attributesSignature, c.hash(m), e1.publicKey, c.hash(m'), e1.publicKey)
  }

  lemma ReceivedRet(c: Crypto, t: Token, secret: seq<byte>, into: Token)
    requires Issued(c, t, secret) && BuffersSized(into) && AttributesReadable(t)
    ensures WellTyped(Fields(Sent(c, t, secret))) && Decoded(c, Fields(Sent(c, t, secret)), into).ret
  {
    hide ReadHeader, Decoded, Sized;
    SentIsSized(c, t, secret);
    EncodeReplacesAll(Sent(c, t, secret), map[]);
    DecodeRestores(c, Sent(c, t, secret), map[], into);
  }

  lemma SecondReceived(c: Crypto, t2: Token, secret: seq<byte>, p: Token)
    requires Issued(c, t2, secret) && AttributesReadable(t2) && Proven(c, p) && BuffersSized(p) && !p.privateKeyIsSet
    ensures var e2 := Sent(c, t2, secret);
            && WellTyped(WithoutAttributes(Fields(e2)))
            && var r := Decoded(c, WithoutAttributes(Fields(e2)), p);
               && r.ret && r.t.signature == e2.signature && r.t.publicKey == t2.publicKey
               && r.t.attributes == p.attributes && r.t.attributesSignature == p.attributesSignature
               && r.t.attrsVerified && !r.t.sigVerified && r.t.scope.Public?
               && r.t.kind == t2.kind && r.t.expiresAt == t2.expiresAt
               && SignatureVerifies(c, r.t)
  {
    hide ReadHeader, Decoded, TokenInput, Fields, CacheSound;
    SentIsSized(c, t2, secret);
    var e2 := Sent(c, t2, secret);
    DecodeWithoutAttributes(c, e2, p);
    var r := Decoded(c, WithoutAttributes(Fields(e2)), p).t;
    SameTokenHash(c, t2, r);
  }

  lemma SecondCheck(c: Ops, p: Token, r: Token, expected: bv8, now: real, attributes: seq<byte>)
    requires WellFormed(p.attributes) && r.attributes == p.attributes && WellFormed(attributes)
    requires Contents(p.attributes) == Contents(attributes)
    requires HasFlags(r.kind, expected) && now <= r.expiresAt && r.scope.Public?
    requires HasFlags(r.kind, TYPE_MESSAGE_INTENT) ==> ThresholdsHold(c, attributes)
    requires SignatureVerifies(c, r) && r.attrsVerified
    ensures AttributesReadable(r) && Checkable(r)
    ensures Check(c, r, expected, now).valid
    ensures FullyValid(c, r, expected, now) <==> AttributesVerify(c, r)
  {
    hide ReadHeader, Holds, Parse, Find, SignatureVerifies, AttributesVerify, HasFlags, Searchable;
    WellFormedIsCheckable(r);
  }

  lemma SecondAttributes(c: Crypto, t1: Token, t2: Token, secret: seq<byte>, p: Token, r: Token)
    requires Issued(c, t1, secret) && AttributesReadable(t1) && AttributesReadable(t2) && SecondBinds(c, t1, t2, secret)
    requires Proven(c, p) && AttributesReadable(p) && UsedAttributes(p) == UsedAttributes(Sent(c, t1, secret))
    requires p.signature == Sent(c, t1, secret).signature
    requires p.attributesSignature == Sent(c, t1, secret).attributesSignature
    requires p.publicKey == t1.publicKey == r.publicKey
    requires r.signature == Sent(c, t2, secret).signature
    requires r.attributes == p.attributes && r.attributesSignature == p.attributesSignature
    ensures AttributesVerify(c, r) <==> Sent(c, t1, secret).signature == Sent(c, t2, secret).signature
  {
    hide ReadHeader, TokenHash, UsedAttributes;
    var e1, e2 := Sent(c, t1, secret), Sent(c, t2, secret);
    assert UsedAttributes(r) == UsedAttributes(p) by { SameUsed(r, p); }
    assert e1.publicKey == t1.publicKey;
    OtherSignature(c, t1, secret, p);
    OtherSignature(c, t2, secret, r);
    if AttributesVerify(c, r) {
      SameParts(UsedAttributes(e1), e1.signature, UsedAttributes(e1), e2.signature);
    }
  }

  lemma SameUsed(a: Token, b: Token)
    requires a.attributes == b.attributes && AttributesReadable(b)
    ensures AttributesReadable(a) && UsedAttributes(a) == UsedAttributes(b)
  {
    hide ReadHeader;
  }

  // ------------------------------------------------------- what a check asks

  predicate Bit(x: bv8, mask: bv8) {
    x & mask != 0
  }

  /** A type passes when it has every bit that is expected, an intent when it has 0x10. */
  lemma FlagsByBits(data: bv8, flags: bv8)
    ensures HasFlags(data, flags)
       <==> && (Bit(flags, 0x01) ==> Bit(data, 0x01)) && (Bit(flags, 0x02) ==> Bit(data, 0x02))
            && (Bit(flags, 0x04) ==> Bit(data, 0x04)) && (Bit(flags, 0x08) ==> Bit(data, 0x08))
            && (Bit(flags, 0x10) ==> Bit(data, 0x10)) && (Bit(flags, 0x20) ==> Bit(data, 0x20))
            && (Bit(flags, 0x40) ==> Bit(data, 0x40)) && (Bit(flags, 0x80) ==> Bit(data, 0x80))
    ensures HasFlags(data, TYPE_MESSAGE_INTENT) <==> Bit(data, 0x10)
  {
  }

  /** A token whose key is at hand is believed without a look at its signatures; no other is. */
  lemma OwnTokensAreTrusted(c: Ops, t: Token, expected: bv8, now: real)
    requires Checkable(t) && HasFlags(t.kind, expected) && now <= t.expiresAt && !HasFlags(t.kind, TYPE_MESSAGE_INTENT)
    ensures t.scope in {Private, PrivateAvailable} ==> Check(c, t, expected, now).valid
    ensures t.scope in {Public, Undefined} && !t.sigVerified && !SignatureVerifies(c, t) ==>
              !Check(c, t, expected, now).valid
  {
    hide Checkable, SignatureVerifies, AttributesVerify, HasFlags;
  }

  /** Everything about an intent but its thresholds is in order. */
  predicate OtherwiseGood(c: Ops, t: Token, expected: bv8, now: real) {
    && HasFlags(t.kind, expected) && Bit(t.kind, 0x10) && now <= t.expiresAt
    && (CanSign(t.scope) || ((t.sigVerified || SignatureVerifies(c, t)) && (t.attrsVerified || AttributesVerify(c, t))))
  }

  /** An otherwise good intent is valid exactly when both thresholds are there and no more
      messages have been used than allowed; a negative maximum is read as a huge one. */
  lemma IntentIsValidIff(c: Ops, t: Token, expected: bv8, now: real)
    requires Checkable(t) && OtherwiseGood(c, t, expected, now)
    ensures var max := Lookup(Contents(t.attributes), Ascii("max_threshold"));
            var msg := Lookup(Contents(t.attributes), Ascii("msg_threshold"));
            && (max.None? || msg.None? ==> !Check(c, t, expected, now).valid)
            && (max.Some? && max.value.UInt? && msg.Some? && msg.value.UInt? ==>
                  (Check(c, t, expected, now).valid <==> msg.value.unsigned <= max.value.unsigned))
            && (max.Some? && max.value.Int? && msg.Some? && msg.value.UInt? && -0x8000_0000 <= max.value.integer < 0 ==>
                  (Check(c, t, expected, now).valid <==> msg.value.unsigned <= max.value.integer + 0x1_0000_0000))
  {
    hide Ascii, ReadHeader, Parse, Find, SignatureVerifies, AttributesVerify, ThresholdsSearchable;
    FlagsByBits(t.kind, TYPE_MESSAGE_INTENT);
  }

  /** The keys as the token factory writes them. */
  lemma ThresholdKeysDiffer()
    ensures Ascii("max_threshold") != Ascii("msg_threshold")
  {
    assert Ascii("max_threshold")[1] == 'a' as int && Ascii("msg_threshold")[1] == 's' as int;
  }

  /** After np_set_data of the messages used to n, a check of an intent allowed `max` answers n <= max. */
  lemma UsedMessagesDecide(c: Ops, t: Token, max: nat, n: nat, t': Token, expected: bv8, now: real)
    requires WellFormed(t.attributes) && Lookup(Contents(t.attributes), Ascii("max_threshold")) == Some(UInt(max))
    requires n < 0x1_0000_0000 && SetEffect(t.attributes, Obj(Ascii("msg_threshold"), UInt(n)), Ok, t'.attributes)
    requires OtherwiseGood(c, t', expected, now)
    ensures Checkable(t') && (Check(c, t', expected, now).valid <==> n <= max)
  {
    hide Ascii, ReadHeader, Parse, Holds, Find, SetEffect, OtherwiseGood, Checkable, Check;
    var o := Obj(Ascii("msg_threshold"), UInt(n));
    HeaderIsRead(t.attributes);
    SetSucceeded(t.attributes, o, Ok, t'.attributes);
    DistinctContents(t.attributes);
    ThresholdKeysDiffer();
    LookupAfterPut(Contents(t.attributes), o, Ascii("msg_threshold"));
    LookupAfterPut(Contents(t.attributes), o, Ascii("max_threshold"));
    WellFormedIsCheckable(t');
    IntentIsValidIff(c, t', expected, now);
  }

  /** An intent that allows 24 messages cannot be made: its threshold cannot be stored, in
      whatever block, and the factory asserts that it is. */
  lemma NoIntentAllows24(objs: seq<Obj>, total: nat)
    ensures !SetRet(objs, total, Obj(Ascii("max_threshold"), UInt(24))).Ok?
    ensures forall n: nat | n < 0x1_0000_0000 && n != 24 :: Storable(Obj(Ascii("max_threshold"), UInt(n)))
  {
    hide Ascii, CalcSize, Used, Find;
  }

  // -------------------------------------------------- checks over time

  /** A check changes the VALID bit to its answer and no other bit. */
  lemma CheckSetsTheValidBit(c: Ops, t: Token, expected: bv8, now: real)
    requires Checkable(t)
    ensures var t' := Checked(c, t, expected, now);
            && (HasFlags(t'.state, AAA_VALID) <==> Check(c, t, expected, now).valid)
            && t'.state & !AAA_VALID == t.state & !AAA_VALID
  {
    hide Check, Checkable;
  }

  /** Everything a check looks at apart from the clock. */
  predicate Verdict(c: Ops, t: Token, expected: bv8)
    requires Checkable(t)
  {
    && HasFlags(t.kind, expected)
    && (CanSign(t.scope) || ((t.sigVerified || SignatureVerifies(c, t)) && (t.attrsVerified || AttributesVerify(c, t))))
    && IntentHolds(c, t)
  }

  /** A check answers its verdict until the token expires, and does not change the verdict. */
  lemma CheckKeepsVerdict(c: Ops, t: Token, expected: bv8, now: real)
    requires Checkable(t)
    ensures Check(c, t, expected, now).valid == (Verdict(c, t, expected) && now <= t.expiresAt)
    ensures Checkable(Checked(c, t, expected, now))
    ensures Verdict(c, Checked(c, t, expected, now), expected) == Verdict(c, t, expected)
  {
    hide AttributesVerify, TokenHash, HasFlags, ThresholdsHold, ReadHeader, ThresholdsSearchable;
    var t' := Checked(c, t, expected, now);
    SameTokenHash(c, t, t');
    SameAttributesVerify(c, t, t');
  }

  ghost predicate IsCheckRun(c: Ops, ts: seq<Token>, expected: bv8, clock: seq<real>) {
    && |ts| == |clock| + 1
    && (forall i | 0 <= i < |clock| :: Checkable(ts[i]) && ts[i + 1] == Checked(c, ts[i], expected, clock[i]))
    && forall i, j | 0 <= i < j < |clock| :: clock[i] <= clock[j]
  }

  lemma {:induction false} RunKeepsVerdict(c: Ops, ts: seq<Token>, expected: bv8, clock: seq<real>, n: nat)
    requires IsCheckRun(c, ts, expected, clock) && n < |clock|
    ensures Verdict(c, ts[n], expected) == Verdict(c, ts[0], expected) && ts[n].expiresAt == ts[0].expiresAt
  {
    hide Check, Checkable, Verdict;
    if n > 0 {
      RunKeepsVerdict(c, ts, expected, clock, n - 1);
      assert ts[n - 1 + 1] == Checked(c, ts[n - 1], expected, clock[n - 1]);
      CheckKeepsVerdict(c, ts[n - 1], expected, clock[n - 1]);
    }
  }

  /** With a clock that never goes back, the answers are a block of true before a block of false. */
  lemma AnswersOnlyTurnFalse(c: Ops, ts: seq<Token>, expected: bv8, clock: seq<real>, i: nat, j: nat)
    requires IsCheckRun(c, ts, expected, clock) && i < j < |clock|
    ensures Check(c, ts[j], expected, clock[j]).valid ==> Check(c, ts[i], expected, clock[i]).valid
  {
    hide Check, Checkable, Verdict;
    RunKeepsVerdict(c, ts, expected, clock, i);
    RunKeepsVerdict(c, ts, expected, clock, j);
    CheckKeepsVerdict(c, ts[i], expected, clock[i]);
    CheckKeepsVerdict(c, ts[j], expected, clock[j]);
  }

  // ------------------------------------------- the attribute signature

  /** The attribute signature verifies over the current attributes and token signature. */
  predicate AttributesSignedBy(c: Ops, t: Token, secret: seq<byte>) {
    AttributesReadable(t) && c.verify(t.attributesSignature, AttributesHash(c, t), c.publicKey(secret))
  }

  lemma SameAttributesHash(c: Ops, a: Token, b: Token)
    requires AttributesReadable(a) && a.attributes == b.attributes && a.signature == b.signature
    ensures AttributesReadable(b) && AttributesHash(c, a) == AttributesHash(c, b)
  {
    hide ReadHeader;
  }

  datatype TokenOp =
    | SetPartner(fp: seq<byte>)
    | Countersign(signee: Token, signeeSecret: seq<byte>)

  /** The attribute an operation stores. */
  function Stored(c: Ops, t: Token, op: TokenOp): Obj
    requires |t.signature| == SIGNATURE_SIZE
  {
    match op
    case SetPartner(fp) => PartnerObject(fp)
    case Countersign(signee, signeeSecret) => CountersignObject(c, t, signee, signeeSecret)
  }

  /** np_aaatoken_set_partner_fp asserts that the attribute was stored;
      _np_aaatoken_set_signature with a signee ignores a lack of room. */
  predicate TokenStep(c: Ops, t: Token, op: TokenOp, ret: Ret, secret: seq<byte>, t': Token) {
    && |t.signature| == SIGNATURE_SIZE && WellFormed(t.attributes)
    && (op.SetPartner? ==> |op.fp| == FINGERPRINT_SIZE && ret.Ok?)
    && (op.Countersign? ==> |op.signee.publicKey| == PUBLIC_KEY_SIZE)
    && AttributeStored(c, t, Stored(c, t, op), ret, secret, t')
  }

  /** One step keeps the token signature, signs the attributes it leaves and stores or keeps
      the partner. */
  lemma StepKeepsAttributesSigned(c: Crypto, t: Token, op: TokenOp, ret: Ret, secret: seq<byte>, t': Token)
    requires TokenStep(c, t, op, ret, secret, t')
    ensures t'.signature == t.signature && AttributesSignedBy(c, t', secret)
    ensures WellFormed(t'.attributes)
    ensures Lookup(Contents(t'.attributes), PARTNER_FP)
         == if op.SetPartner? then Some(Bin(op.fp)) else Lookup(Contents(t.attributes), PARTNER_FP)
  {
    hide SetEffect, ReadHeader, Holds, Parse, Find, Storable, TokenHash, Fingerprint;
    var o := Stored(c, t, op);
    match op {
      case SetPartner(fp) => PartnerIsStorable(fp);
      case Countersign(signee, signeeSecret) => CountersignIsStorable(c, t, signee, signeeSecret);
    }
    SetStorable(t.attributes, o, ret, t'.attributes);
    WellFormedIsReadable(t);
    DistinctContents(t.attributes);
    LookupAfterPut(Contents(t.attributes), o, PARTNER_FP);
  }

  /** A stored countersignature names its signee, and verifies with the key it brings
      against the signature of the token. */
  lemma CountersignatureVerifies(c: Crypto, t: Token, op: TokenOp, ret: Ret, secret: seq<byte>, t': Token)
    requires TokenStep(c, t, op, ret, secret, t') && op.Countersign? && ret.Ok?
    requires op.signee.publicKey == c.publicKey(op.signeeSecret)
    ensures |t'.signature| == SIGNATURE_SIZE && WellFormed(t'.attributes)
    ensures var v := Lookup(Contents(t'.attributes), ToHex(Fingerprint(c, op.signee)));
            && v.Some? && v.value.Bin? && |v.value.bytes| == PUBLIC_KEY_SIZE + SIGNATURE_SIZE
            && v.value.bytes[..PUBLIC_KEY_SIZE] == op.signee.publicKey
            && c.verify(v.value.bytes[PUBLIC_KEY_SIZE..], t'.signature[..FINGERPRINT_SIZE],
                        v.value.bytes[..PUBLIC_KEY_SIZE])
  {
    hide SetEffect, ReadHeader, Holds, Parse, Find, Storable, TokenHash, Fingerprint;
    var o := CountersignObject(c, t, op.signee, op.signeeSecret);
    CountersignIsStorable(c, t, op.signee, op.signeeSecret);
    SetStorable(t.attributes, o, ret, t'.attributes);
    StepKeepsAttributesSigned(c, t, op, ret, secret, t');
    WellFormedIsReadable(t);
    DistinctContents(t.attributes);
    LookupAfterPut(Contents(t.attributes), o, o.key);
    var s := c.sign(op.signeeSecret, t.signature[..FINGERPRINT_SIZE]);
    assert |s| == SIGNATURE_SIZE && (op.signee.publicKey + s)[PUBLIC_KEY_SIZE..] == s;
  }

  /** Without a partner of its own, a token's partner is the issuer its text names. */
  lemma IssuerIsThePartner(c: Ops, t: Token, fp: seq<byte>)
    requires |t.attributes| >= HEADER_SIZE && Lookup(Contents(t.attributes), PARTNER_FP).None?
    requires |fp| == FINGERPRINT_SIZE && t.issuer == ToHex(fp)
    ensures PartnerOf(c, t) == Some(fp)
  {
    hide Find, Parse, ReadHeader;
    HexRoundTrip(fp);
    assert t.issuer[..64] == t.issuer;
  }

  /** The fingerprint covers the token hash and the signature. */
  lemma FingerprintsAgreeIff(c: Crypto, a: Token, b: Token)
    requires |a.signature| == |b.signature|
    requires NoCollision(c, TokenHash(c, a) + a.signature, TokenHash(c, b) + b.signature)
    ensures Fingerprint(c, a) == Fingerprint(c, b) <==> TokenHash(c, a) == TokenHash(c, b) && a.signature == b.signature
  {
    hide TokenHash;
    if Fingerprint(c, a) == Fingerprint(c, b) {
      SameParts(TokenHash(c, a), a.signature, TokenHash(c, b), b.signature);
    }
  }

  /** The other ways to a partner: a stored attribute of another size fails the assert, an
      empty issuer means the token itself, and an issuer that is no hexadecimal text nobody. */
  lemma PartnerCases(c: Ops, t: Token)
    requires |t.attributes| >= HEADER_SIZE
    ensures var v := Lookup(Contents(t.attributes), Ascii("_np.partner_fp"));
            && (v.Some? && (IsNumber(v.value) || |Pointed(v.value).value| != FINGERPRINT_SIZE) ==>
                  PartnerOf(c, t).None?)
            && (v.None? && t.issuer == [] ==> PartnerOf(c, t) == Some(Fingerprint(c, t)))
            && (v.None? && t.issuer != []
                && (|t.issuer| < 64 || exists i | 0 <= i < 64 :: !IsHexDigit(t.issuer[i])) ==>
                  PartnerOf(c, t) == Some(Zeros(FINGERPRINT_SIZE)))
  {
    hide Ascii, ReadHeader, Parse, Find, Fingerprint, FromHex;
    if |t.issuer| >= 64 {
      HexReadsIff(t.issuer[..64]);
      if exists i | 0 <= i < 64 :: !IsHexDigit(t.issuer[i]) {
        var i :| 0 <= i < 64 && !IsHexDigit(t.issuer[i]);
        assert t.issuer[..64][i] == t.issuer[i];
      }
    }
  }

  predicate IsOpRun(c: Ops, ts: seq<Token>, ops: seq<TokenOp>, rets: seq<Ret>, secret: seq<byte>) {
    && |ts| == |ops| + 1 == |rets| + 1
    && forall i | 0 <= i < |ops| :: TokenStep(c, ts[i], ops[i], rets[i], secret, ts[i + 1])
  }

  function LastPartner(ops: seq<TokenOp>): Option<seq<byte>> {
    if ops == [] then None
    else if ops[|ops| - 1].SetPartner? then Some(ops[|ops| - 1].fp)
    else LastPartner(ops[..|ops| - 1])
  }

  /** Any sequence of partner settings and countersignatures keeps the token signature and
      an attribute signature that verifies; the partner read back is the last one set. */
  lemma {:induction false} RunKeepsAttributesSigned(
      c: Crypto, ts: seq<Token>, ops: seq<TokenOp>, rets: seq<Ret>, secret: seq<byte>)
    requires IsOpRun(c, ts, ops, rets, secret)
    requires WellFormed(ts[0].attributes) && AttributesSignedBy(c, ts[0], secret)
    ensures var t := ts[|ops|];
            && t.signature == ts[0].signature && AttributesSignedBy(c, t, secret)
            && Readable(t.attributes)
            && (LastPartner(ops).Some? ==> PartnerOf(c, t) == LastPartner(ops))
    ensures LastPartner(ops).Some? ==>
              && Lookup(Contents(ts[|ops|].attributes), PARTNER_FP) == Some(Bin(LastPartner(ops).value))
              && |LastPartner(ops).value| == FINGERPRINT_SIZE
    ensures WellFormed(ts[|ops|].attributes)
  {
    hide AttributeStored, ReadHeader, Holds, Parse, Find, AttributesSignedBy;
    if ops != [] {
      var n := |ops| - 1;
      RunKeepsAttributesSigned(c, ts[..n + 1], ops[..n], rets[..n], secret);
      assert TokenStep(c, ts[n], ops[n], rets[n], secret, ts[n + 1]);
      StepKeepsAttributesSigned(c, ts[n], ops[n], rets[n], secret, ts[n + 1]);
    }
  }

  /** A self-signature covers the token's fields; it makes no promise about the attributes,
      but updating their signature, or encoding, does. */
  lemma SelfSignThenUpdate(c: Crypto, t: Token, secret: seq<byte>)
    requires AttributesReadable(t) && CanSign(t.scope)
    ensures c.verify(Signed(c, t, secret).signature, TokenHash(c, Signed(c, t, secret)), c.publicKey(secret))
    ensures AttributesSignedBy(c, AttributesSigned(c, Signed(c, t, secret), secret), secret)
    ensures AttributesSignedBy(c, EncodedToken(c, Signed(c, t, secret), secret), secret)
  {
    hide TokenHash, ReadHeader;
    SameTokenHash(c, t, Signed(c, t, secret));
    var s := Signed(c, t, secret);
    SameAttributesHash(c, s, AttributesSigned(c, s, secret));
  }

  /** Without that update the attribute signature survives a self-signature exactly when
      the token carried this very signature already, whatever the library. */
  lemma SelfSignKeepsIff(c: Crypto, t: Token, secret: seq<byte>)
    requires AttributesSignedBy(c, t, secret) && |t.signature| == SIGNATURE_SIZE
    requires SelfSignBinds(c, t, secret)
    ensures AttributesSignedBy(c, Signed(c, t, secret), secret) <==> t.signature == c.sign(secret, TokenHash(c, t))
  {
    hide ReadHeader, TokenHash, UsedAttributes;
    var s := Signed(c, t, secret);
    SameUsed(s, t);
    assert |c.sign(secret, TokenHash(c, t))| == SIGNATURE_SIZE;
    if AttributesSignedBy(c, s, secret) {
      SameParts(UsedAttributes(t), t.signature, UsedAttributes(t), s.signature);
    }
  }

  /** The library does not confuse what the attribute signature covers before and after. */
  predicate SelfSignBinds(c: Ops, t: Token, secret: seq<byte>)
    requires AttributesReadable(t)
  {
    var m, m' := UsedAttributes(t) + t.signature, UsedAttributes(t) + c.sign(secret, TokenHash(c, t));
    && NoCollision(c, m, m')
    && SignsOne(c, t.attributesSignature, c.hash(m), c.publicKey(secret), c.hash(m'), c.publicKey(secret))
  }

  // ----------------------------------------------- what the hashes cover

  lemma SameParts(a: seq<byte>, b: seq<byte>, x: seq<byte>, y: seq<byte>)
    requires a + b == x + y && |b| == |y|
    ensures a == x && b == y
  {
    assert |a + b| == |x + y|;
    assert a == (a + b)[..|a|] && x == (x + y)[..|x|];
    assert b == (a + b)[|a|..] && y == (x + y)[|x|..];
  }

  /** The library writes these two doubles with eight bytes each, and differently unless
      they are the same. */
  predicate ToldApart(c: Ops, x: real, y: real) {
    |c.doubleBytes(x)| == |c.doubleBytes(y)| == 8 && (c.doubleBytes(x) == c.doubleBytes(y) ==> x == y)
  }

  predicate TimesToldApart(c: Ops, a: Token, b: Token) {
    && ToldApart(c, a.expiresAt, b.expiresAt)
    && ToldApart(c, a.issuedAt, b.issuedAt)
    && ToldApart(c, a.notBefore, b.notBefore)
  }

  predicate SameLengths(a: Token, b: Token) {
    |a.realm| == |b.realm| && |a.issuer| == |b.issuer| && |a.subject| == |b.subject| && |a.audience| == |b.audience|
  }

  predicate SameCoveredFields(a: Token, b: Token) {
    && a.uuid == b.uuid && a.realm == b.realm && a.issuer == b.issuer && a.subject == b.subject
    && a.audience == b.audience && a.publicKey == b.publicKey
    && a.expiresAt == b.expiresAt && a.issuedAt == b.issuedAt && a.notBefore == b.notBefore
  }

  /** The four texts as they reach the hash. */
  function JoinedTexts(t: Token): seq<byte> {
    t.realm + t.issuer + t.subject + t.audience
  }

  /** Two tokens feed the same bytes to the hash exactly when they agree in uuid, public key
      and times, and in the four texts joined into one, wherever it is cut. */
  lemma SameTokenInputIff(c: Ops, a: Token, b: Token)
    requires TimesToldApart(c, a, b) && Sized(a) && Sized(b)
    ensures TokenInput(c, a) == TokenInput(c, b)
       <==> && a.uuid == b.uuid && a.publicKey == b.publicKey
            && a.expiresAt == b.expiresAt && a.issuedAt == b.issuedAt && a.notBefore == b.notBefore
            && JoinedTexts(a) == JoinedTexts(b)
  {
    InputJoined(c, a);
    InputJoined(c, b);
    if TokenInput(c, a) == TokenInput(c, b) {
      SameTimes(c, a, b);
      SameParts(a.uuid + JoinedTexts(a), a.publicKey, b.uuid + JoinedTexts(b), b.publicKey);
      SameFronts(a.uuid, JoinedTexts(a), b.uuid, JoinedTexts(b));
    }
  }

  lemma InputJoined(c: Ops, t: Token)
    ensures TokenInput(c, t)
         == t.uuid + JoinedTexts(t) + t.publicKey
            + c.doubleBytes(t.expiresAt) + c.doubleBytes(t.issuedAt) + c.doubleBytes(t.notBefore)
  {
    assert t.uuid + t.realm + t.issuer + t.subject + t.audience == t.uuid + JoinedTexts(t);
  }

  lemma SameFronts(a: seq<byte>, b: seq<byte>, x: seq<byte>, y: seq<byte>)
    requires a + b == x + y && |a| == |x|
    ensures a == x && b == y
  {
    assert |a + b| == |x + y|;
    SameParts(a, b, x, y);
  }

  /** So tokens with texts of the same lengths do exactly when all nine fields agree. */
  lemma TokenHashCoversItsFields(c: Ops, a: Token, b: Token)
    requires TimesToldApart(c, a, b) && Sized(a) && Sized(b) && SameLengths(a, b)
    ensures TokenInput(c, a) == TokenInput(c, b) <==> SameCoveredFields(a, b)
  {
    hide TokenInput;
    SameTokenInputIff(c, a, b);
    if JoinedTexts(a) == JoinedTexts(b) {
      SameSuffixes(a.realm, a.issuer, a.subject, a.audience, b.realm, b.issuer, b.subject, b.audience);
    }
  }

  lemma SameTimes(c: Ops, a: Token, b: Token)
    requires TimesToldApart(c, a, b) && TokenInput(c, a) == TokenInput(c, b)
    ensures a.expiresAt == b.expiresAt && a.issuedAt == b.issuedAt && a.notBefore == b.notBefore
    ensures a.uuid + JoinedTexts(a) + a.publicKey == b.uuid + JoinedTexts(b) + b.publicKey
  {
    InputJoined(c, a);
    InputJoined(c, b);
    var x, y := a.uuid + JoinedTexts(a) + a.publicKey, b.uuid + JoinedTexts(b) + b.publicKey;
    SameSuffixes(x, c.doubleBytes(a.expiresAt), c.doubleBytes(a.issuedAt), c.doubleBytes(a.notBefore),
                 y, c.doubleBytes(b.expiresAt), c.doubleBytes(b.issuedAt), c.doubleBytes(b.notBefore));
  }

  lemma SameSuffixes(x: seq<byte>, x1: seq<byte>, x2: seq<byte>, x3: seq<byte>,
                     y: seq<byte>, y1: seq<byte>, y2: seq<byte>, y3: seq<byte>)
    requires |x1| == |y1| && |x2| == |y2| && |x3| == |y3| && x + x1 + x2 + x3 == y + y1 + y2 + y3
    ensures x == y && x1 == y1 && x2 == y2 && x3 == y3
  {
    SameParts(x + x1 + x2, x3, y + y1 + y2, y3);
    SameParts(x + x1, x2, y + y1, y2);
    SameParts(x, x1, y, y1);
  }

  /** The pieces are not separated: a byte moved from the end of the subject to the front of
      the audience leaves the hash as it is, whatever the library. */
  lemma SubjectAndAudienceRunTogether(c: Ops, t: Token, s: byte)
    ensures TokenHash(c, t.(subject := t.subject + [s])) == TokenHash(c, t.(audience := [s] + t.audience))
  {
    var pre := t.uuid + t.realm + t.issuer;
    assert pre + (t.subject + [s]) + t.audience == pre + t.subject + ([s] + t.audience);
  }

  /** The attribute hash covers the used attributes and the token signature. */
  lemma AttributesHashCovers(a: Token, b: Token)
    requires AttributesReadable(a) && AttributesReadable(b) && |a.signature| == |b.signature|
    ensures AttributesInput(a) == AttributesInput(b)
       <==> UsedAttributes(a) == UsedAttributes(b) && a.signature == b.signature
  {
    hide ReadHeader;
    if AttributesInput(a) == AttributesInput(b) {
      SameParts(UsedAttributes(a), a.signature, UsedAttributes(b), b.signature);
    }
  }
}
