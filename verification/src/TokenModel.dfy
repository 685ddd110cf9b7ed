/** The AAA token of src/np_aaatoken.c as a value, and what its operations do to it. */
module TokenModel {
  import opened Bytes
  import opened KvCodec
  import opened Layout
  import opened Datablock
  import opened Hex

  // ---------------------------------------------------------------- crypto

  /** The library functions the token code calls, as parameters: hashing, Ed25519
      signatures, whether a public key converts to a key-exchange key, the bytes of a
      double, and what an unsigned read of the value union yields for a pointer. */
  datatype Ops = Ops(
    hash: seq<byte> -> seq<byte>,
    publicKey: seq<byte> -> seq<byte>,
    sign: (seq<byte>, seq<byte>) -> seq<byte>,
    verify: (seq<byte>, seq<byte>, seq<byte>) -> bool,
    acceptsKey: seq<byte> -> bool,
    doubleBytes: real -> seq<byte>,
    pointerBits: seq<byte> -> nat)

  /** Verification accepts what signing with the matching key produced (sections 5.1.6 and
      5.1.7 of RFC 8032), and the sizes are those of the library. */
  ghost predicate Sound(c: Ops) {
    && (forall sk, m :: c.verify(c.sign(sk, m), m, c.publicKey(sk)))
    && (forall sk, m :: |c.sign(sk, m)| == SIGNATURE_SIZE)
    && (forall m :: |c.hash(m)| == FINGERPRINT_SIZE)
    && (forall sk :: |c.publicKey(sk)| == PUBLIC_KEY_SIZE && c.acceptsKey(c.publicKey(sk)))
  }

  ghost function Trivial(): Ops {
    Ops(m => Zeros(FINGERPRINT_SIZE), sk => Zeros(PUBLIC_KEY_SIZE), (sk, m) => Zeros(SIGNATURE_SIZE),
        (s, m, pk) => true, pk => true, d => Zeros(8), s => 0)
  }

  type Crypto = c: Ops | Sound(c) ghost witness Trivial()

  // ----------------------------------------------------------------- token

  datatype Scope = Private | PrivateAvailable | Public | Undefined

  /** scope <= np_aaatoken_scope_private_available */
  predicate CanSign(s: Scope) {
    s.Private? || s.PrivateAvailable?
  }

  const TYPE_UNDEFINED: bv8 := 0
  const TYPE_MESSAGE_INTENT: bv8 := 0x10
  const AAA_VALID: bv8 := 0x01

  datatype Token = Token(
    uuid: seq<byte>, realm: seq<byte>, issuer: seq<byte>, subject: seq<byte>, audience: seq<byte>,
    issuedAt: real, notBefore: real, expiresAt: real,
    attributes: seq<byte>, attributesSignature: seq<byte>,
    publicKey: seq<byte>, signature: seq<byte>,
    state: bv8, kind: bv8, scope: Scope, privateKeyIsSet: bool,
    sigVerified: bool, attrsVerified: bool)

  /** The fixed sizes of the C structure, and text that is NUL-terminated inside its array. */
  predicate Sized(t: Token) {
    && |t.uuid| == UUID_SIZE && |t.publicKey| == PUBLIC_KEY_SIZE
    && |t.signature| == SIGNATURE_SIZE && |t.attributesSignature| == SIGNATURE_SIZE
    && |t.attributes| == ATTRIBUTES_SIZE
    && |t.realm| < 255 && |t.issuer| < 65 && |t.subject| < 255 && |t.audience| < 255
  }

  /** What np_new_obj delivers: memory the pool has cleared, on which _np_aaatoken_t_new has
      set uuid, times and an empty attribute block. */
  predicate IsNew(t: Token, id: seq<byte>, now: real, lifetime: real) {
    && Holds(t.attributes, ATTRIBUTES_SIZE, [])
    && t == Token(id, [], [], [], [], now, now, now + lifetime, t.attributes, Zeros(SIGNATURE_SIZE),
                  Zeros(PUBLIC_KEY_SIZE), Zeros(SIGNATURE_SIZE), 0, TYPE_UNDEFINED, Undefined, false, false, false)
  }

  /** The two buffers decode copies into. */
  predicate BuffersSized(t: Token) {
    |t.attributes| == ATTRIBUTES_SIZE && |t.attributesSignature| == SIGNATURE_SIZE
  }

  // ---------------------------------------------------------------- hashes

  /** What _np_aaatoken_get_hash feeds to the hash, piece by piece and without separators. */
  function TokenInput(c: Ops, t: Token): seq<byte> {
    t.uuid + t.realm + t.issuer + t.subject + t.audience + t.publicKey
    + c.doubleBytes(t.expiresAt) + c.doubleBytes(t.issuedAt) + c.doubleBytes(t.notBefore)
  }

  /** _np_aaatoken_get_hash */
  function TokenHash(c: Ops, t: Token): seq<byte> {
    c.hash(TokenInput(c, t))
  }

  /** The attributes' header can be read and stays inside the array. */
  predicate AttributesReadable(t: Token) {
    && |t.attributes| >= HEADER_SIZE
    && ReadHeader(t.attributes).0.Ok?
    && UsedOf(t.attributes) <= |t.attributes|
  }

  function UsedAttributes(t: Token): seq<byte>
    requires AttributesReadable(t)
  {
    t.attributes[..UsedOf(t.attributes)]
  }

  /** What __np_aaatoken_get_attributes_hash feeds to the hash. */
  function AttributesInput(t: Token): seq<byte>
    requires AttributesReadable(t)
  {
    UsedAttributes(t) + t.signature
  }

  /** __np_aaatoken_get_attributes_hash */
  function AttributesHash(c: Ops, t: Token): seq<byte>
    requires AttributesReadable(t)
  {
    c.hash(AttributesInput(t))
  }

  /** np_aaatoken_get_fingerprint without extensions. */
  function Fingerprint(c: Ops, t: Token): seq<byte> {
    c.hash(TokenHash(c, t) + t.signature)
  }

  predicate SignatureVerifies(c: Ops, t: Token) {
    c.verify(t.signature, TokenHash(c, t), t.publicKey)
  }

  predicate AttributesVerify(c: Ops, t: Token) {
    AttributesReadable(t) && c.verify(t.attributesSignature, AttributesHash(c, t), t.publicKey)
  }

  // ------------------------------------------------------- sign and encode

  /** _np_aaatoken_set_signature without a signee: the issuer's key signs the token hash. */
  function Signed(c: Ops, t: Token, secret: seq<byte>): Token {
    t.(signature := c.sign(secret, TokenHash(c, t)))
  }

  /** _np_aaatoken_update_attributes_signature */
  function AttributesSigned(c: Ops, t: Token, secret: seq<byte>): Token
    requires AttributesReadable(t)
  {
    t.(attributesSignature := c.sign(secret, AttributesHash(c, t)))
  }

  /** The keys "np.t.type", "np.t.u", "np.t.r", "np.t.i", "np.t.s", "np.t.a", "np.t.p",
      "np.t.ex", "np.t.ia", "np.t.nb", "np.t.si", "np.t.e" and "np.t.sie". */
  datatype Field =
    | FType | FUuid | FRealm | FIssuer | FSubject | FAudience | FPublicKey
    | FExpires | FIssued | FNotBefore | FSignature | FAttributes | FAttributesSignature

  datatype TreeVal = Flags(flags: bv8) | Binary(bytes: seq<byte>) | Text(text: seq<byte>) | Double(number: real)

  type Tree = map<Field, TreeVal>

  /** The values have the types and sizes decode reads them with. */
  predicate WellTyped(d: Tree) {
    && (FType in d ==> d[FType].Flags?)
    && (FUuid in d ==> d[FUuid].Binary? && |d[FUuid].bytes| >= UUID_SIZE)
    && (FRealm in d ==> d[FRealm].Text?)
    && (FIssuer in d ==> d[FIssuer].Text?)
    && (FSubject in d ==> d[FSubject].Text?)
    && (FAudience in d ==> d[FAudience].Text?)
    && (FPublicKey in d ==> d[FPublicKey].Binary? && |d[FPublicKey].bytes| >= PUBLIC_KEY_SIZE)
    && (FExpires in d ==> d[FExpires].Double?)
    && (FIssued in d ==> d[FIssued].Double?)
    && (FNotBefore in d ==> d[FNotBefore].Double?)
    && (FSignature in d ==> d[FSignature].Binary? && |d[FSignature].bytes| >= SIGNATURE_SIZE)
    && (FAttributes in d ==> d[FAttributes].Binary?)
    && (FAttributesSignature in d ==> d[FAttributesSignature].Binary?)
  }

  /** The part of _np_aaatoken_encode that fills the tree. */
  function Fields(t: Token): Tree
    requires AttributesReadable(t)
  {
    map[FType := Flags(t.kind), FUuid := Binary(t.uuid), FRealm := Text(t.realm), FIssuer := Text(t.issuer),
        FSubject := Text(t.subject), FAudience := Text(t.audience), FPublicKey := Binary(t.publicKey),
        FExpires := Double(t.expiresAt), FIssued := Double(t.issuedAt), FNotBefore := Double(t.notBefore),
        FSignature := Binary(t.signature), FAttributes := Binary(t.attributes[..UsedOf(t.attributes)]),
        FAttributesSignature := Binary(t.attributesSignature)]
  }

  /** _np_aaatoken_encode: a token that can sign renews its attribute signature on the way. */
  function EncodedToken(c: Ops, t: Token, secret: seq<byte>): Token
    requires AttributesReadable(t)
  {
    if CanSign(t.scope) then AttributesSigned(c, t, secret) else t
  }

  // ---------------------------------------------------------------- decode

  /** strncpy into a cleared char array of this size. */
  function CopyText(s: seq<byte>, size: nat): seq<byte> {
    s[..Min(|s|, size)]
  }

  /** memcpy of at most `size` bytes over the front of a buffer. */
  function CopyOver(buffer: seq<byte>, s: seq<byte>, size: nat): seq<byte>
    requires size <= |buffer|
  {
    var n := Min(|s|, size);
    Splice(buffer, 0, s[..n])
  }

  /** Token and return value between two steps of decode. */
  datatype Decoding = Decoding(t: Token, ret: bool)

  predicate SameAttributes(a: Token, b: Token) {
    && a.attributes == b.attributes && a.attributesSignature == b.attributesSignature
    && a.attrsVerified == b.attrsVerified && a.privateKeyIsSet == b.privateKeyIsSet
  }

  predicate SameSignature(a: Token, b: Token) {
    a.signature == b.signature && a.sigVerified == b.sigVerified
  }

  /** The steps of np_aaatoken_decode in order; a step does nothing once a mandatory field
      was missing. */
  function StepIdentity(d: Tree, s: Decoding): (r: Decoding)
    requires WellTyped(d)
    ensures SameAttributes(r.t, s.t)
    ensures SameSignature(r.t, s.t)
    ensures r.ret == (s.ret && FUuid in d && FType in d)
    ensures r.t.uuid == if FUuid in d then d[FUuid].bytes[..UUID_SIZE] else s.t.uuid
  {
    var s1 := if FUuid in d then s.(t := s.t.(uuid := d[FUuid].bytes[..UUID_SIZE])) else s.(ret := false);
    if s1.ret && FType in d then s1.(t := s1.t.(kind := d[FType].flags)) else s1.(ret := false)
  }

  function StepOrigin(d: Tree, s: Decoding): (r: Decoding)
    requires WellTyped(d)
    ensures SameAttributes(r.t, s.t)
    ensures SameSignature(r.t, s.t) && r.t.uuid == s.t.uuid
    ensures r.ret == (s.ret && FIssuer in d)
  {
    var s1 := if s.ret && FRealm in d then s.(t := s.t.(realm := CopyText(d[FRealm].text, 255))) else s;
    if s1.ret && FIssuer in d then s1.(t := s1.t.(issuer := CopyText(d[FIssuer].text, 65))) else s1.(ret := false)
  }

  function StepPurpose(d: Tree, s: Decoding): (r: Decoding)
    requires WellTyped(d)
    ensures SameAttributes(r.t, s.t)
    ensures SameSignature(r.t, s.t) && r.t.uuid == s.t.uuid
    ensures r.ret == (s.ret && FSubject in d)
  {
    var s1 :=
      if s.ret && FSubject in d then s.(t := s.t.(subject := CopyText(d[FSubject].text, 255))) else s.(ret := false);
    if s1.ret && FAudience in d then s1.(t := s1.t.(audience := CopyText(d[FAudience].text, 255))) else s1
  }

  function StepKey(c: Ops, d: Tree, s: Decoding): (r: Decoding)
    requires WellTyped(d)
    ensures SameAttributes(r.t, s.t)
    ensures SameSignature(r.t, s.t) && r.t.uuid == s.t.uuid
    ensures r.ret == (s.ret && FPublicKey in d && c.acceptsKey(d[FPublicKey].bytes[..PUBLIC_KEY_SIZE]))
  {
    if s.ret && FPublicKey in d then
      var pk := d[FPublicKey].bytes[..PUBLIC_KEY_SIZE];
      Decoding(s.t.(publicKey := pk), c.acceptsKey(pk))
    else s.(ret := false)
  }

  function StepTimes(d: Tree, s: Decoding): (r: Decoding)
    requires WellTyped(d)
    ensures SameAttributes(r.t, s.t)
    ensures SameSignature(r.t, s.t) && r.t.uuid == s.t.uuid
    ensures r.ret == (s.ret && FExpires in d)
  {
    var s1 := if s.ret && FExpires in d then s.(t := s.t.(expiresAt := d[FExpires].number)) else s.(ret := false);
    var s2 := if s1.ret && FIssued in d then s1.(t := s1.t.(issuedAt := d[FIssued].number)) else s1;
    if s2.ret && FNotBefore in d then s2.(t := s2.t.(notBefore := d[FNotBefore].number)) else s2
  }

  function StepSignature(d: Tree, s: Decoding): (r: Decoding)
    requires WellTyped(d)
    ensures SameAttributes(r.t, s.t)
  {
    if s.ret && FSignature in d then
      s.(t := s.t.(signature := d[FSignature].bytes[..SIGNATURE_SIZE], sigVerified := false))
    else s.(ret := false)
  }

  function StepAttributes(d: Tree, s: Decoding): Decoding
    requires WellTyped(d) && BuffersSized(s.t)
  {
    if s.ret && FAttributes in d then
      var t1 := s.t.(attributes := CopyOver(s.t.attributes, d[FAttributes].bytes, ATTRIBUTES_SIZE));
      if FAttributesSignature in d then
        var signature := CopyOver(t1.attributesSignature, d[FAttributesSignature].bytes, SIGNATURE_SIZE);
        Decoding(t1.(attributesSignature := signature, attrsVerified := false), true)
      else Decoding(t1, false)
    else s
  }

  function UpdateScope(t: Token): Token {
    t.(scope := if t.privateKeyIsSet then Private else Public)
  }

  /** Everything up to the times. */
  function DecodedFields(c: Ops, d: Tree, t: Token): (r: Decoding)
    requires WellTyped(d)
    ensures SameAttributes(r.t, t)
  {
    var s0 := Decoding(t.(scope := Undefined, kind := TYPE_UNDEFINED), true);
    StepTimes(d, StepKey(c, d, StepPurpose(d, StepOrigin(d, StepIdentity(d, s0)))))
  }

  /** np_aaatoken_decode */
  function Decoded(c: Ops, d: Tree, t: Token): (r: Decoding)
    requires WellTyped(d) && BuffersSized(t)
  {
    var e := StepAttributes(d, StepSignature(d, DecodedFields(c, d, t)));
    e.(t := UpdateScope(e.t))
  }

  // -------------------------------------------------------------- validity

  predicate HasFlags(data: bv8, flags: bv8) {
    data & flags == flags
  }

  const MAX_THRESHOLD: Key := Ascii("max_threshold")
  const MSG_THRESHOLD: Key := Ascii("msg_threshold")

  /** The value union read as a uint32_t. */
  function AsUnsigned(c: Ops, v: Value): nat {
    match v
    case UInt(n) => n
    case Int(n) => n % 0x1_0000_0000
    case Bin(b) => c.pointerBits(b)
    case Str(s) => c.pointerBits(s)
  }

  /** Both thresholds are there and the messages used do not exceed the maximum. */
  predicate ThresholdsHold(c: Ops, attributes: seq<byte>)
    requires |attributes| >= HEADER_SIZE
  {
    var max, msg := Lookup(Contents(attributes), MAX_THRESHOLD), Lookup(Contents(attributes), MSG_THRESHOLD);
    max.Some? && msg.Some? && AsUnsigned(c, msg.value) <= AsUnsigned(c, max.value)
  }

  /** The search for the thresholds ends; for the second one only if the first is there. */
  predicate ThresholdsSearchable(attributes: seq<byte>) {
    && Searchable(attributes, MAX_THRESHOLD)
    && (Has(Contents(attributes), MAX_THRESHOLD) ==> Searchable(attributes, MSG_THRESHOLD))
  }

  /** What a validity check may be given: a header that stays inside the array, and for
      intents a block that can be searched. */
  predicate Checkable(t: Token) {
    && |t.attributes| >= HEADER_SIZE
    && (ReadHeader(t.attributes).0.Ok? ==> UsedOf(t.attributes) <= |t.attributes|)
    && (HasFlags(t.kind, TYPE_MESSAGE_INTENT) ==> ThresholdsSearchable(t.attributes))
  }

  /** The answer of a check and the two flags it leaves behind. */
  datatype Outcome = Outcome(valid: bool, sig: bool, attrs: bool)

  /** _np_aaatoken_is_valid: signatures are verified once and then remembered. */
  function Check(c: Ops, t: Token, expected: bv8, now: real): Outcome
    requires Checkable(t)
  {
    if !HasFlags(t.kind, expected) then Outcome(false, t.sigVerified, t.attrsVerified)
    else if now > t.expiresAt then Outcome(false, t.sigVerified, t.attrsVerified)
    else if CanSign(t.scope) then Outcome(IntentHolds(c, t), t.sigVerified, t.attrsVerified)
    else if !t.sigVerified && !SignatureVerifies(c, t) then Outcome(false, false, t.attrsVerified)
    else if !t.attrsVerified && !AttributesVerify(c, t) then Outcome(false, true, false)
    else Outcome(IntentHolds(c, t), true, true)
  }

  predicate IntentHolds(c: Ops, t: Token)
    requires Checkable(t)
  {
    HasFlags(t.kind, TYPE_MESSAGE_INTENT) ==> ThresholdsHold(c, t.attributes)
  }

  /** The state with its VALID bit set to the answer. */
  function Marked(state: bv8, valid: bool): bv8 {
    if valid then state | AAA_VALID else state & !AAA_VALID
  }

  /** The token after a check. */
  function Checked(c: Ops, t: Token, expected: bv8, now: real): Token
    requires Checkable(t)
  {
    var o := Check(c, t, expected, now);
    t.(state := Marked(t.state, o.valid), sigVerified := o.sig, attrsVerified := o.attrs)
  }

  /** The answer of a check that always verifies both signatures. */
  predicate FullyValid(c: Ops, t: Token, expected: bv8, now: real)
    requires Checkable(t)
  {
    && HasFlags(t.kind, expected)
    && now <= t.expiresAt
    && (CanSign(t.scope) || (SignatureVerifies(c, t) && AttributesVerify(c, t)))
    && IntentHolds(c, t)
  }

  // -------------------------------------------- partner and countersignature

  const PARTNER_FP: Key := Ascii("_np.partner_fp")

  function PartnerObject(fp: seq<byte>): Obj {
    Obj(PARTNER_FP, Bin(fp))
  }

  /** The attribute a signee adds: its fingerprint as text, and its public key followed by
      its signature over the first 32 bytes of the token's signature. */
  function CountersignObject(c: Ops, t: Token, signee: Token, signeeSecret: seq<byte>): Obj
    requires |t.signature| == SIGNATURE_SIZE
  {
    Obj(ToHex(Fingerprint(c, signee)), Bin(signee.publicKey + c.sign(signeeSecret, t.signature[..FINGERPRINT_SIZE])))
  }

  /** t' is t after np_set_data of an attribute returned `ret` and the attributes were
      signed again with the issuer's secret. */
  predicate AttributeStored(c: Ops, t: Token, o: Obj, ret: Ret, secret: seq<byte>, t': Token) {
    && Readable(t.attributes) && SetEffect(t.attributes, o, ret, t'.attributes)
    && AttributesReadable(t')
    && t' == t.(attributes := t'.attributes, attributesSignature := c.sign(secret, AttributesHash(c, t')))
  }

  /** np_dhkey_create_from_hash: 64 hexadecimal digits, anything else is the zero key. */
  function KeyFromText(text: seq<byte>): seq<byte> {
    if |text| < 64 then Zeros(FINGERPRINT_SIZE)
    else
      match FromHex(text[..64])
      case Some(k) => k
      case None => Zeros(FINGERPRINT_SIZE)
  }

  /** np_aaatoken_get_partner_fp; None stands for the failed ASSERT on the attribute's size. */
  function PartnerOf(c: Ops, t: Token): Option<seq<byte>>
    requires |t.attributes| >= HEADER_SIZE
  {
    match Lookup(Contents(t.attributes), PARTNER_FP)
    case Some(v) => if Pointed(v).Some? && |Pointed(v).value| == FINGERPRINT_SIZE then Pointed(v) else None
    case None => if t.issuer == [] then Some(Fingerprint(c, t)) else Some(KeyFromText(t.issuer))
  }

  lemma PartnerIsStorable(fp: seq<byte>)
    requires |fp| == FINGERPRINT_SIZE
    ensures Storable(PartnerObject(fp))
  {
    assert |PARTNER_FP| == 14;
  }

  lemma CountersignIsStorable(c: Crypto, t: Token, signee: Token, signeeSecret: seq<byte>)
    requires |t.signature| == SIGNATURE_SIZE && |signee.publicKey| == PUBLIC_KEY_SIZE
    ensures var o := CountersignObject(c, t, signee, signeeSecret); Storable(o) && o.key != PARTNER_FP
  {
    hide TokenHash;
    var fp := Fingerprint(c, signee);
    assert |fp| == FINGERPRINT_SIZE;
    HexIsText(fp);
    assert |c.sign(signeeSecret, t.signature[..FINGERPRINT_SIZE])| == SIGNATURE_SIZE;
    assert |PARTNER_FP| == 14;
  }
}
