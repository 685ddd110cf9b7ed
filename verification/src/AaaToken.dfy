/** The token object of src/np_aaatoken.c, updated in place. Its methods are proved against
    the functions of module TokenModel. */
module AaaToken {
  import opened Bytes
  import opened KvCodec
  import opened Layout
  import opened Datablock
  import opened Hex
  import opened TokenModel

  class AaaToken {
    var uuid: seq<byte>
    var realm: seq<byte>
    var issuer: seq<byte>
    var subject: seq<byte>
    var audience: seq<byte>
    var issuedAt: real
    var notBefore: real
    var expiresAt: real
    const attributes: array<byte>
    var attributesSignature: seq<byte>
    var publicKey: seq<byte>
    var secretKey: seq<byte>
    var signature: seq<byte>
    var state: bv8
    var kind: bv8
    var scope: Scope
    var privateKeyIsSet: bool
    var issuerToken: AaaToken
    var sigVerified: bool
    var attrsVerified: bool

    /** The fields as a value. */
    function Data(): Token
      reads this, attributes
    {
      Token(uuid, realm, issuer, subject, audience, issuedAt, notBefore, expiresAt,
                  attributes[..], attributesSignature, publicKey, signature,
                  state, kind, scope, privateKeyIsSet, sigVerified, attrsVerified)
    }

    /** np_new_obj with _np_aaatoken_t_new: uuid, clock and lifetime are drawn by the caller.
        The pool has cleared the memory, so both flags are down. */
    constructor (id: seq<byte>, now: real, lifetime: real)
      requires |id| == UUID_SIZE
      ensures fresh(attributes) && Sized(Data()) && IsNew(Data(), id, now, lifetime)
      ensures issuerToken == this
    {
      uuid, realm, issuer, subject, audience := id, [], [], [], [];
      issuedAt, notBefore, expiresAt := now, now, now + lifetime;
      attributes := new byte[ATTRIBUTES_SIZE](i => 0);
      attributesSignature := Zeros(SIGNATURE_SIZE);
      publicKey, secretKey := Zeros(PUBLIC_KEY_SIZE), Zeros(SIGNATURE_SIZE);
      signature := Zeros(SIGNATURE_SIZE);
      state, kind, scope := 0, TYPE_UNDEFINED, Undefined;
      privateKeyIsSet, sigVerified, attrsVerified := false, false, false;
      issuerToken := this;
      new;
      var ret := InitDatablock(attributes, ATTRIBUTES_SIZE);
    }

    /** _np_aaatoken_update_attributes_signature */
    method UpdateAttributesSignature(c: Ops)
      requires CanSign(scope) && AttributesReadable(Data())
      modifies this`attributesSignature
      ensures Data() == AttributesSigned(c, old(Data()), old(issuerToken.secretKey))
    {
      hide ReadHeader;
      var ret, size := GetDataSize(attributes);
      attributesSignature := c.sign(issuerToken.secretKey, c.hash(attributes[..size] + signature));
      assert attributes[..size] == attributes[..][..size];
    }

    /** _np_aaatoken_set_signature without a signee */
    method SetSignature(c: Ops)
      requires CanSign(scope)
      modifies this`signature
      ensures Data() == Signed(c, old(Data()), old(issuerToken.secretKey))
    {
      signature := c.sign(issuerToken.secretKey, TokenHash(c, Data()));
    }

    /** _np_aaatoken_encode into a tree that may already hold other values. */
    method Encode(c: Ops, data: Tree) returns (d: Tree)
      requires AttributesReadable(Data())
      modifies this`attributesSignature
      ensures Data() == EncodedToken(c, old(Data()), old(issuerToken.secretKey))
      ensures d == data + Fields(Data())
    {
      hide ReadHeader;
      var ret, size := GetDataSize(attributes);
      d := data[FType := Flags(kind)][FUuid := Binary(uuid)][FRealm := Text(realm)][FIssuer := Text(issuer)];
      d := d[FSubject := Text(subject)][FAudience := Text(audience)][FPublicKey := Binary(publicKey)];
      d := d[FExpires := Double(expiresAt)][FIssued := Double(issuedAt)][FNotBefore := Double(notBefore)];
      d := d[FSignature := Binary(signature)][FAttributes := Binary(attributes[..size])];
      assert attributes[..size] == attributes[..][..size];
      if CanSign(scope) {
        UpdateAttributesSignature(c);
      }
      d := d[FAttributesSignature := Binary(attributesSignature)];
    }

    /** np_aaatoken_decode */
    method Decode(c: Ops, d: Tree) returns (ret: bool)
      requires WellTyped(d) && BuffersSized(Data())
      modifies this, attributes
      ensures Decoding(Data(), ret) == Decoded(c, d, old(Data()))
    {
      hide WellTyped, DecodedFields, StepSignature, StepAttributes;
      ret := DecodeFields(c, d);
      ret := DecodeSignature(d, ret);
      ret := DecodeAttributes(d, ret);
      UpdateTheScope();
    }

    method DecodeFields(c: Ops, d: Tree) returns (ret: bool)
      requires WellTyped(d)
      modifies this
      ensures Decoding(Data(), ret) == DecodedFields(c, d, old(Data()))
    {
      hide WellTyped, StepIdentity, StepOrigin, StepPurpose, StepKey, StepTimes;
      ghost var t := Data();
      scope, kind := Undefined, TYPE_UNDEFINED;
      assert attributes[..] == t.attributes;
      ret := DecodeIdentity(d);
      ret := DecodeOrigin(d, ret);
      ret := DecodePurpose(d, ret);
      ret := DecodeKey(c, d, ret);
      ret := DecodeTimes(d, ret);
    }

    /** _np_aaatoken_update_scope */
    method UpdateTheScope()
      modifies this`scope
      ensures Data() == UpdateScope(old(Data()))
    {
      scope := if privateKeyIsSet then Private else Public;
    }

    method DecodeIdentity(d: Tree) returns (ret: bool)
      requires WellTyped(d)
      modifies this`uuid, this`kind
      ensures Decoding(Data(), ret) == StepIdentity(d, Decoding(old(Data()), true))
    {
      ret := true;
      if FUuid in d { uuid := d[FUuid].bytes[..UUID_SIZE]; } else { ret := false; }
      if ret && FType in d { kind := d[FType].flags; } else { ret := false; }
    }

    method DecodeOrigin(d: Tree, ok: bool) returns (ret: bool)
      requires WellTyped(d)
      modifies this`realm, this`issuer
      ensures Decoding(Data(), ret) == StepOrigin(d, Decoding(old(Data()), ok))
    {
      ret := ok;
      if ret && FRealm in d { realm := CopyText(d[FRealm].text, 255); }
      if ret && FIssuer in d { issuer := CopyText(d[FIssuer].text, 65); } else { ret := false; }
    }

    method DecodePurpose(d: Tree, ok: bool) returns (ret: bool)
      requires WellTyped(d)
      modifies this`subject, this`audience
      ensures Decoding(Data(), ret) == StepPurpose(d, Decoding(old(Data()), ok))
    {
      ret := ok;
      if ret && FSubject in d { subject := CopyText(d[FSubject].text, 255); } else { ret := false; }
      if ret && FAudience in d { audience := CopyText(d[FAudience].text, 255); }
    }

    /** The key is copied before the library is asked whether it accepts it. */
    method DecodeKey(c: Ops, d: Tree, ok: bool) returns (ret: bool)
      requires WellTyped(d)
      modifies this`publicKey
      ensures Decoding(Data(), ret) == StepKey(c, d, Decoding(old(Data()), ok))
    {
      ret := ok;
      if ret && FPublicKey in d {
        publicKey := d[FPublicKey].bytes[..PUBLIC_KEY_SIZE];
        ret := c.acceptsKey(publicKey);
      } else {
        ret := false;
      }
    }

    method DecodeTimes(d: Tree, ok: bool) returns (ret: bool)
      requires WellTyped(d)
      modifies this`expiresAt, this`issuedAt, this`notBefore
      ensures Decoding(Data(), ret) == StepTimes(d, Decoding(old(Data()), ok))
    {
      ret := ok;
      if ret && FExpires in d { expiresAt := d[FExpires].number; } else { ret := false; }
      if ret && FIssued in d { issuedAt := d[FIssued].number; }
      if ret && FNotBefore in d { notBefore := d[FNotBefore].number; }
    }

    method DecodeSignature(d: Tree, ok: bool) returns (ret: bool)
      requires WellTyped(d)
      modifies this`signature, this`sigVerified
      ensures Decoding(Data(), ret) == StepSignature(d, Decoding(old(Data()), ok))
    {
      ret := ok;
      if ret && FSignature in d {
        signature := d[FSignature].bytes[..SIGNATURE_SIZE];
        sigVerified := false;
      } else {
        ret := false;
      }
    }

    method DecodeAttributes(d: Tree, ok: bool) returns (ret: bool)
      requires WellTyped(d) && BuffersSized(Data())
      modifies attributes, this`attributesSignature, this`attrsVerified
      ensures Decoding(Data(), ret) == StepAttributes(d, Decoding(old(Data()), ok))
    {
      hide Splice;
      ret := ok;
      if ret && FAttributes in d {
        Write(attributes, 0, d[FAttributes].bytes[..Min(|d[FAttributes].bytes|, ATTRIBUTES_SIZE)]);
        if FAttributesSignature in d {
          attributesSignature := CopyOver(attributesSignature, d[FAttributesSignature].bytes, SIGNATURE_SIZE);
          attrsVerified := false;
        } else {
          ret := false;
        }
      }
    }

    method VerifyAttributes(c: Ops) returns (ok: bool)
      requires Checkable(Data())
      ensures ok == AttributesVerify(c, Data())
    {
      hide ReadHeader, ThresholdsSearchable;
      var ret, size := GetDataSize(attributes);
      if !ret.Ok? {
        return false;
      }
      assert attributes[..size] == attributes[..][..size];
      ok := c.verify(attributesSignature, c.hash(attributes[..size] + signature), publicKey);
    }

    method CheckThresholds(c: Ops) returns (ok: bool)
      requires ThresholdsSearchable(Data().attributes)
      ensures ok == ThresholdsHold(c, Data().attributes)
    {
      hide Searchable, Find, Parse;
      var r1, max := GetData(attributes, MAX_THRESHOLD);
      if !r1.Ok? {
        return false;
      }
      var r2, msg := GetData(attributes, MSG_THRESHOLD);
      ok := r2.Ok? && AsUnsigned(c, msg.value) <= AsUnsigned(c, max.value);
    }

    /** Verifies each signature that has not been verified yet, the token's first. */
    method VerifySignatures(c: Ops) returns (ok: bool)
      requires Checkable(Data())
      modifies this`sigVerified, this`attrsVerified
      ensures var t := old(Data());
              && sigVerified == (t.sigVerified || SignatureVerifies(c, t))
              && attrsVerified == (t.attrsVerified || (sigVerified && AttributesVerify(c, t)))
              && ok == (sigVerified && attrsVerified)
    {
      hide Checkable, TokenHash, AttributesVerify;
      if !sigVerified && !c.verify(signature, TokenHash(c, Data()), publicKey) {
        return false;
      }
      if !attrsVerified {
        attrsVerified := VerifyAttributes(c);
      }
      sigVerified := true;
      ok := attrsVerified;
    }

    /** _np_aaatoken_is_valid on a token that is not NULL */
    method IsValid(c: Ops, expected: bv8, now: real) returns (valid: bool)
      requires Checkable(Data())
      modifies this`state, this`sigVerified, this`attrsVerified
      ensures valid == Check(c, old(Data()), expected, now).valid
      ensures Data() == Checked(c, old(Data()), expected, now)
    {
      hide Checkable, Check, Marked;
      valid := Judge(c, expected, now);
      state := Marked(state, valid);
      assert attributes[..] == old(attributes[..]);
    }

    /** The checks in their order: type, clock, signatures unless the key is at hand, thresholds. */
    method Judge(c: Ops, expected: bv8, now: real) returns (valid: bool)
      requires Checkable(Data())
      modifies this`sigVerified, this`attrsVerified
      ensures Outcome(valid, sigVerified, attrsVerified) == Check(c, old(Data()), expected, now)
    {
      hide ReadHeader, SignatureVerifies, ThresholdsSearchable, ThresholdsHold, AttributesVerify, HasFlags;
      valid := HasFlags(kind, expected) && now <= expiresAt;
      if valid && !CanSign(scope) {
        valid := VerifySignatures(c);
      }
      if valid && HasFlags(kind, TYPE_MESSAGE_INTENT) {
        valid := CheckThresholds(c);
      }
    }

    /** Stores one attribute and signs the attributes again. */
    method StoreAttribute(c: Ops, o: Obj) returns (ret: Ret)
      requires Storable(o) && CanSign(scope)
      requires attributes.Length == ATTRIBUTES_SIZE && WellFormed(Data().attributes)
      modifies this`attributesSignature, attributes
      ensures AttributeStored(c, old(Data()), o, ret, old(issuerToken.secretKey), Data())
    {
      hide ReadHeader, Holds, Parse, Find, SetEffect, CalcSize;
      ghost var b := attributes[..];
      StorableIsSmall(o);
      HeaderIsRead(b);
      FewObjects(b);
      ret := SetData(attributes, o);
      SetStorable(b, o, ret, attributes[..]);
      HeaderIsRead(attributes[..]);
      UpdateAttributesSignature(c);
    }

    /** np_aaatoken_set_partner_fp; an attribute that cannot be stored fails its assert. */
    method SetPartnerFp(c: Ops, fp: seq<byte>) returns (ret: Ret)
      requires |fp| == FINGERPRINT_SIZE && CanSign(scope)
      requires attributes.Length == ATTRIBUTES_SIZE && WellFormed(Data().attributes)
      modifies this`attributesSignature, attributes
      ensures AttributeStored(c, old(Data()), PartnerObject(fp), ret, old(issuerToken.secretKey), Data())
    {
      hide WellFormed, Storable, AttributeStored;
      PartnerIsStorable(fp);
      ret := StoreAttribute(c, PartnerObject(fp));
    }

    /** _np_aaatoken_set_signature with a signee, which has to be the issuer */
    method SetSignatureBy(c: Crypto, signee: AaaToken) returns (ret: Ret)
      requires signee.privateKeyIsSet && ToHex(Fingerprint(c, signee.Data())) == issuer
      requires |signature| == SIGNATURE_SIZE && |signee.publicKey| == PUBLIC_KEY_SIZE
      requires CanSign(scope)
      requires attributes.Length == ATTRIBUTES_SIZE && WellFormed(Data().attributes)
      modifies this`attributesSignature, attributes
      ensures AttributeStored(c, old(Data()),
                              old(CountersignObject(c, Data(), signee.Data(), signee.secretKey)), ret,
                              old(issuerToken.secretKey), Data())
    {
      hide WellFormed, Storable, AttributeStored, CountersignObject;
      CountersignIsStorable(c, Data(), signee.Data(), signee.secretKey);
      ret := StoreAttribute(c, CountersignObject(c, Data(), signee.Data(), signee.secretKey));
    }

    /** np_aaatoken_get_partner_fp */
    method GetPartnerFp(c: Ops) returns (fp: Option<seq<byte>>)
      requires Searchable(Data().attributes, PARTNER_FP)
      ensures fp == PartnerOf(c, Data())
    {
      hide Searchable, Find, Parse;
      var ret, value := GetData(attributes, PARTNER_FP);
      if ret.Ok? {
        var p := Pointed(value.value);
        return if p.Some? && |p.value| == FINGERPRINT_SIZE then p else None;
      }
      if issuer == [] {
        return Some(Fingerprint(c, Data()));
      }
      return Some(KeyFromText(issuer));
    }
  }
}
