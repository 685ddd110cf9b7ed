/** A token on its way from one object to another: signed and encoded here, decoded and
    checked there. */
module TokenExchange {
  import opened Bytes
  import opened KvCodec
  import opened Layout
  import opened Datablock
  import opened TokenModel
  import opened TokenTheorems
  import opened AaaToken

  /** The receiving object answers true exactly for the token's type, until it expires, and
      for intents while the thresholds hold; and it holds what was sent. */
  method Exchange(c: Crypto, sender: AaaToken, receiver: AaaToken, expected: bv8, now: real) returns (valid: bool)
    requires sender != receiver && sender.attributes != receiver.attributes
    requires Issued(c, sender.Data(), sender.issuerToken.secretKey) && BuffersSized(receiver.Data())
    modifies sender`signature, sender`attributesSignature, receiver, receiver.attributes
    ensures |old(sender.Data()).attributes| >= HEADER_SIZE
    ensures var t := old(sender.Data());
            valid <==> && HasFlags(t.kind, expected) && now <= t.expiresAt
                       && (HasFlags(t.kind, TYPE_MESSAGE_INTENT) ==> ThresholdsHold(c, t.attributes))
    ensures SameCoveredFields(receiver.Data(), old(sender.Data())) && receiver.kind == sender.kind
    ensures receiver.signature == sender.signature && receiver.attributesSignature == sender.attributesSignature
    ensures |receiver.Data().attributes| >= HEADER_SIZE
    ensures Contents(receiver.Data().attributes) == Contents(old(sender.Data()).attributes)
  {
    hide ReadHeader, Holds, Parse, Decoded, Fields, TokenInput, UsedAttributes, Check, Checkable, HasFlags;
    hide ThresholdsHold, Sized;
    ghost var t, secret, into := sender.Data(), sender.issuerToken.secretKey, receiver.Data();
    WellFormedIsReadable(t);
    sender.SetSignature(c);
    SameUsed(sender.Data(), t);
    var d := sender.Encode(c, map[]);
    ghost var e := sender.Data();
    SentIsSized(c, t, secret);
    assert e == Sent(c, t, secret);
    DecodeRestores(c, e, map[], into);
    ReceivedAttributes(c, e, map[], into);
    SignedTokenIsValidUntilItExpires(c, t, secret, map[], into, expected, now);
    assert receiver.Data() == into;
    var ok := receiver.Decode(c, d);
    valid := receiver.IsValid(c, expected, now);
    assert sender.Data() == e;
  }
}
