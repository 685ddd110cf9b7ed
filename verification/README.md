# neuropil: a verified model of its data, token and event core

This project models, in Dafny, the part of neuropil on which its messages rest, and proves
what that part promises.

- **Datablocks** (`Cbor`, `KvCodec`, `Layout`, `Datablock`, `Walk`, `FailedSets`,
  `DatablockRuns`). A datablock is a
  key/value store packed into one byte buffer the caller owns: a 21-byte CBOR header, then the
  objects back to back. Values are overwritten in place, the tail moved up or down. The model
  keeps the buffer as an array, writes and reads the actual CBOR bytes, and proves that the
  buffer is a map over every run of operations.
- **AAA tokens** (`Hex`, `TokenModel`, `AaaToken`, `TokenTheorems`, `TokenWitnesses`,
  `TokenExchange`). A token is signed, encoded
  into a tree, decoded elsewhere, and validated by a check that remembers which signatures it
  has verified. The class holds the fields the source updates; its methods are proved against
  functions on token values, and the theorems are about those.
- **Event chains** (`EventChain`). A queue of at most 255 events that grows while it is drained,
  holds a reference per entry and releases them at the end. The handler is an arbitrary function.
- **Bootstrap list** (`Bootstrap`). Contact points in key order, bound to reference-counted keys,
  and the pings they feed into an event chain, or start chains of their own with.
- **Attribute policies** (`Bloom`, `Policy`). The counting Bloom filter with its 8-bit cells and
  the compliance check built on it.
- **Messages and subjects** (`Messages`, `Subjects`). The attribute path from send to receive,
  and subjects as XOR-folded hashes with the table that names the known ones.

A failed `ASSERT` or `assert`, which stops the process, is an outcome (`AssertFailed`, `Aborts`,
a false result) wherever callers can reach it. Hashes, signatures, which public
keys the library takes, the clock, uuids and the memory representation of doubles and pointers
are parameters. What is assumed about them everywhere is that verification accepts what signing
with the matching key produced (sections 5.1.6 and 5.1.7 of RFC 8032), and that sizes are those
of the library. A theorem that needs more, such as distinct hashes of the known subjects or that
two particular inputs do not collide, says so, and `TokenWitnesses` shows that it can be had.

## What the proofs found

The model follows the code; each of these is proved, with the condition under which it happens.

- The size np_set_data reserves is wrong at some boundaries, because it compares with `> 24`
  where CBOR needs `>= 24`, knows no 32-bit lengths and takes the absolute value of negative
  numbers (`KvCodec.CalcSizeAgainstEncoding`). Too much room (-256, -65536) fails the assert
  after the write. Too little makes the set fail, and when the key was already there, the tail
  has been moved by then and the header is not rewritten. With data the block is always
  ill-formed afterwards (`FailedSets.DamagedBlock`); with numbers it may be as before, or read
  as other values under other keys (`FailedSets.SilentCorruption`). `FailedSets.UnnoticedIff` and
  `DatablockRuns.SetIsSafeIffHarmless` say exactly when.
- A search in a block with an object that cannot be read does not end unless the key comes
  before it (`Walk.SearchAnswersIff`, `Walk.SearchNeverReturns`).
- A decode that stops half-way, or that finds no attributes, replaces fields and leaves the
  verification flags standing. `TokenTheorems.DecodeKeepsCacheSound` says when that is harmless,
  `StandingFlags` and `WrongAnswerIff` say exactly when it is not, and
  `AttributesOutliveTheirToken` is a run from a cleared token to a wrong answer.
- A self-signature leaves the attribute signature behind until the next update or encode, unless
  the token carried that signature already (`TokenTheorems.SelfSignKeepsIff`).
- The token hash puts its texts one after the other without separators, so tokens that differ
  only in where the joined text is cut have the same hash, and no others are fed the same bytes
  (`TokenTheorems.SameTokenInputIff`, `SubjectAndAudienceRunTogether`).
- A filter holds 64 items and each attribute takes three, so a compliance check of a non-empty
  policy aborts exactly when the policy's cost plus three per attribute exceeds 64
  (`Policy.CompletesIffThereIsRoom`, `Policy.TooManyAttributesAbort`).
- A policy that asks for a value under a key does not hold the two together: one attribute with
  the key and another with the value comply (`Policy.KeyAndValueComeApart`;
  `Policy.CompliesForEveryHashIff` says exactly what does).
- An intent that allows 24 messages cannot be made, since that number cannot be stored
  (`TokenTheorems.NoIntentAllows24`).
- An attribute cache that defines `_np.from` replaces the sender the receiver sees
  (`Messages.DeliveredIff`, `Messages.CacheCanReplaceTheSender`).
- The comment on np_regenerate_subject, and its check, ask for 64 bytes of buffer; hexadecimal
  text needs 65 (`Subjects.SubjectTable.Regenerate`).

## Model

| member | source | states |
|---|---|---|
| `Cbor.ReadWrittenHead` | src/util/s11n_impl/np_serialize_qcbor.c:634-671 | every item head, whatever its argument up to 64 bits, is read back from its shortest form with whatever bytes behind it (section 3 of RFC 8949) |
| `KvCodec.ReadWrittenObject` | src/util/s11n_impl/np_serialize_qcbor.c:634-731 | reading inverts writing for every object a caller can hand over, consumes exactly the written bytes and looks at nothing behind them |
| `KvCodec.ReadWrittenHeader` | src/util/s11n_impl/np_serialize_qcbor.c:773-889 | the 21-byte header with magic number, capacity, used length and object count is read back as written, for all 32-bit values |
| `KvCodec.BrokenHeader` | src/util/s11n_impl/np_serialize_qcbor.c:773-833 | a header that breaks off is reported by the first field that is missing |
| `KvCodec.ForeignHeader` | src/util/s11n_impl/np_serialize_qcbor.c:793-799 | a header with another magic number is refused as such |
| `KvCodec.CalcSizeAgainstEncoding` | src/util/s11n_impl/np_serialize_qcbor.c:891-938 | the room np_set_data reserves differs from the real encoding exactly at key length 24, data length 24 or from 65536 on, and the numbers 24, -256, -65536 and INT32_MIN, and by how many bytes |
| `Layout.LookupAfterPut` | src/neuropil_data.c:130-208 | storing changes the answer for its own key and for no other |
| `Layout.HoldsDetermines` | src/util/s11n_impl/np_serialize_qcbor.c:733-833 | the bytes of a block determine its capacity and its list of objects: a block holds at most one list |
| `Layout.ReadAtBoundary` | src/util/s11n_impl/np_serialize_qcbor.c:745-757 | a cursor on the boundary before object i reads object i, whatever limit is set behind it |
| `Layout.OnlyThePrefixCounts` | src/np_aaatoken.c:144-149 | contents, capacity and used length depend only on the used prefix: any bytes may follow it in the copy |
| `Datablock.InitDatablock` | src/neuropil_data.c:18-25 | an initialised block is well-formed and empty; a block too short for its header is refused; bytes behind the block are untouched |
| `Datablock.SearchObject` | src/util/s11n_impl/np_serialize_qcbor.c:733-759 | on every block on which the search ends, well-formed or not: finds the object exactly when the walk meets the key, and on a well-formed block the boundaries around it |
| `Walk.SearchSettles` | src/util/s11n_impl/np_serialize_qcbor.c:745-757 | whatever the bytes: after one round more than there are readable objects the loop has its answer for good, or stands still for good in front of an object it cannot read |
| `Walk.SearchAnswersIff` | src/util/s11n_impl/np_serialize_qcbor.c:745-757 | the search ends exactly when the key is met among the objects that can be read, or all the objects counted can be read and the 16-bit counter can count them |
| `Walk.SearchNeverReturns` | src/util/s11n_impl/np_serialize_qcbor.c:745-757 | a 22-byte block on which a search for any key never ends |
| `Datablock.WriteObject` | src/util/s11n_impl/np_serialize_qcbor.c:634-671 | the additions are written in call order up to the first that does not fit the room; success exactly when all of them fit |
| `Datablock.Store` | src/neuropil_data.c:172-203 | the tail is moved by the signed difference of sizes, what fits of the object written into its place and the header last, with the three ways this can end |
| `Datablock.SetData` | src/neuropil_data.c:130-208 | the return code, from contents, capacity and object alone; success leaves a block that holds the updated contents; lack of room changes no byte; a failed write leaves exactly the moved tail and the additions that fit; no byte behind the capacity is ever written |
| `Datablock.PlacedBody` | src/neuropil_data.c:172-193 | moving the tail and writing the object yields exactly the encodings of the updated contents, overwritten or appended |
| `Datablock.RoomForSet` | src/neuropil_data.c:166-184 | every byte a set that passes the space check moves or writes lies inside the block, for growing and shrinking objects |
| `Datablock.UsedAfterPut` | src/neuropil_data.c:157-204 | the used length after a set is the old one minus the old object plus the new one, and the count grows only for a new key |
| `Datablock.GetData` | src/neuropil_data.c:210-233 | the value of the first object met with this key, or not found, on every block on which the search ends; an unreadable header reads as an empty block |
| `Datablock.GetDataSize` | src/neuropil_data.c:235-248 | the used length: header plus the sizes of all objects; zero on an unreadable header |
| `Datablock.GetObjectCount` | src/neuropil_data.c:250-263 | the number of stored objects; zero on an unreadable header |
| `Datablock.IterateData` | src/neuropil_data.c:53-95 | on any bytes: the callback is fed the objects met in layout order up to the first refusal; ok exactly when all objects counted were met and none refused, np_invalid_structure when one cannot be read |
| `Datablock.IteratedIsContents` | src/neuropil_data.c:66-88 | on a well-formed block the iteration meets exactly the contents, although it reads with other limits than a search |
| `Datablock.FeedMeaning` | src/neuropil_data.c:66-92 | feeding means: each object up to the first refusal exactly once, each with the state its predecessors left |
| `Datablock.MergeData` | src/neuropil_data.c:265-300 | for any source bytes: the destination holds what storing the objects met one by one gives, up to the first that is refused, with what that set left, or that cannot be read; a null source is an error |
| `DatablockRuns.AsMapPut` | src/neuropil_data.c:130-208 | as a map, storing is map update |
| `DatablockRuns.HarmlessSet` | src/neuropil_data.c:130-208 | a harmless set keeps the block well-formed, keeps its capacity, and changes its contents only when it reports success |
| `DatablockRuns.SetSucceedsIff` | src/neuropil_data.c:166-203 | a set succeeds exactly when the room of its object is right and the contents with it fit the capacity, and reports lack of room exactly when what it reserves does not fit |
| `DatablockRuns.RunRefinesMap` | src/neuropil_data.c:130-233 | after any run of harmless sets from an initialised block, every key reads as its last successful set, and a key never set is not found |
| `FailedSets.DamagedBlock` | src/neuropil_data.c:172-204 | an overwrite with data for which the reserved room is too small (24 bytes, 65536 or more, any under a key of length 24) always leaves an ill-formed block, wherever the object lies |
| `FailedSets.UnnoticedIff` | src/neuropil_data.c:172-204 | any overwrite with too little room leaves readers the contents they had exactly when a number replaces a number of its kind, or no data is stored, and the rest of the block repeats itself after the distance the sizes differ by |
| `FailedSets.LastIsUnnoticed` | src/neuropil_data.c:172-204 | for the last object of a block only the first half of that condition is left |
| `FailedSets.SilentCorruption` | src/neuropil_data.c:172-204 | a block with two objects on which setting a key to 24 is reported as failed and leaves a well-formed block with another value under that key and another second key |
| `DatablockRuns.SetIsSafeIffHarmless` | src/neuropil_data.c:130-208 | a set returns and leaves readers what they had, or on success the update, exactly when the reserved room is right, or there is no space, or it is too small for a key not there yet or goes unnoticed |
| `DatablockRuns.MergeIsAPrefix` | src/neuropil_data.c:265-300 | a merge stores a prefix of the objects met: each of them goes in, and the one behind them does not |
| `DatablockRuns.MergeOverrides` | src/neuropil_data.c:265-300 | after a merge the map is the old destination overridden by the stored prefix, by the whole source exactly on success, in a well-formed block of the same capacity |
| `DatablockRuns.UnreadableSourceIsReported` | src/neuropil_data.c:277-296 | a source with an object that cannot be read is never reported as merged |
| `DatablockRuns.MergeKeepsOthers` | src/neuropil_data.c:265-300 | a merge, complete or not, leaves alone every key the source does not define |
| `Hex.HexRoundTrip` | src/neuropil.c:1037-1057 | hexadecimal text of an id reads back as the id |
| `Hex.HexIsText` | src/neuropil.c:1037-1042 | what is written are digits and lower-case letters |
| `Hex.HexReadsIff` | src/neuropil.c:1044-1057 | what is read are pairs of digits and letters of either case, and nothing else |
| `AaaToken.AaaToken.constructor` | src/np_aaatoken.c:49-104 | a new token has the sizes of the C structure, an empty well-formed attribute block, cleared key and signatures, and both flags down, in memory the pool has cleared |
| `AaaToken.AaaToken.SetSignature` | src/np_aaatoken.c:655-687 | only the signature changes, to the issuer key's signature of the token hash |
| `AaaToken.AaaToken.UpdateAttributesSignature` | src/np_aaatoken.c:741-801 | only the attribute signature changes, to the issuer key's signature over used attributes and token signature |
| `AaaToken.AaaToken.Encode` | src/np_aaatoken.c:113-158 | the tree gets all thirteen fields, the attributes cut to their used prefix; a token that can sign renews its attribute signature first |
| `AaaToken.AaaToken.Decode` | src/np_aaatoken.c:167-258 | token and return value are those of the seven steps in order, including what a decode that stops half-way leaves behind |
| `AaaToken.AaaToken.VerifyAttributes` | src/np_aaatoken.c:417-439 | true exactly when the attribute header is readable and the attribute signature verifies |
| `AaaToken.AaaToken.VerifySignatures` | src/np_aaatoken.c:361-463 | each signature is verified unless its flag is set, the token's first, and a failed check sets no flag of its own |
| `AaaToken.AaaToken.CheckThresholds` | src/np_aaatoken.c:469-509 | both thresholds are stored and the messages used do not exceed the maximum |
| `AaaToken.AaaToken.Judge` | src/np_aaatoken.c:320-515 | answer and flags of the checks in their order: type, clock, signatures unless the key is at hand, thresholds |
| `AaaToken.AaaToken.IsValid` | src/np_aaatoken.c:307-516 | the answer, the flags and the VALID bit; every other field stays |
| `AaaToken.AaaToken.StoreAttribute` | src/np_aaatoken.c:717-721 | one attribute is stored as a datablock set and the attributes are signed again |
| `AaaToken.AaaToken.SetPartnerFp` | src/np_aaatoken.c:592-613 | the fingerprint is stored under its key and the attributes are signed again |
| `AaaToken.AaaToken.SetSignatureBy` | src/np_aaatoken.c:655-722 | the signee's public key and signature are stored under its fingerprint and the attributes are signed again; the token signature stays |
| `AaaToken.AaaToken.GetPartnerFp` | src/np_aaatoken.c:615-653 | the stored fingerprint, else the token's own for an empty issuer, else the issuer's; a stored one of another size fails the assert |
| `TokenTheorems.DecodeRestores` | src/np_aaatoken.c:113-258 | encode then decode into any token restores every field, of the attributes the used prefix, and clears both flags |
| `TokenTheorems.DecodeTakesOver` | src/np_aaatoken.c:191-229 | from any complete tree: texts are cut at the size of their arrays, and fields that may be missing keep what was there |
| `TokenTheorems.ReceivedAttributes` | src/np_aaatoken.c:144-149 | the received attributes are a well-formed block with the same contents and the same used prefix |
| `TokenTheorems.ReceivedVerifies` | src/np_aaatoken.c:523-575 | both signatures of a token that was signed, encoded and decoded verify |
| `TokenTheorems.SignedTokenIsValidUntilItExpires` | src/np_aaatoken.c:307-516 | a token signed with its issuer key, encoded and decoded is judged valid exactly for its type, until it expires, and for intents while the thresholds hold, for all fields and attributes |
| `TokenTheorems.FlagsByBits` | src/np_aaatoken.c:320-342 | a type passes exactly when it has every expected bit, and is an intent exactly with bit 0x10 |
| `TokenTheorems.OwnTokensAreTrusted` | src/np_aaatoken.c:361-415 | a token whose scope is private or private-available is believed without its signatures, one of the other scopes is not |
| `TokenTheorems.IntentIsValidIff` | src/np_aaatoken.c:469-509 | an otherwise good intent is valid exactly when "max_threshold" and "msg_threshold" are stored and the messages used are at most the maximum, a negative maximum counting as a huge one |
| `TokenTheorems.UsedMessagesDecide` | src/np_aaatoken.c:472-500 | after a set of the messages used to n, the check of an otherwise good intent answers whether n is at most its maximum |
| `TokenTheorems.NoIntentAllows24` | src/np_token_factory.c:269-276 | a maximum of 24 messages cannot be stored in any block, so the factory's assert fails; every other maximum can |
| `TokenTheorems.CachedAnswer` | src/np_aaatoken.c:361-463 | when set flags tell the truth, the check answers like one that always verifies, and they still tell the truth afterwards |
| `TokenTheorems.DecodeKeepsCacheSound` | src/np_aaatoken.c:231-253 | a decode of a complete tree with an accepted key, or of one without a uuid, leaves only flags that tell the truth |
| `TokenTheorems.StandingFlags` | src/np_aaatoken.c:179-253 | after any decode that stops early, on a token found valid before, the flags are right exactly when key, attribute hash input and, if its flag stands, token hash input are unaltered, for every library that does not confuse the two |
| `TokenTheorems.WithoutAttributesIff` | src/np_aaatoken.c:207-253 | for a decode that reports success without attributes: exactly when the tree brings the same public key and the same signature |
| `TokenTheorems.WrongAnswerIff` | src/np_aaatoken.c:307-516 | and a check after it answers wrongly exactly when it answers true and one of them is altered |
| `TokenTheorems.IncompleteDecodeGoesStale` | src/np_aaatoken.c:179-253 | a token received and found valid is left with a flag that lies by every tree with a uuid that misses a later field or brings a refused key, if it differs in the uuid, or in the signature where decode gets that far |
| `TokenTheorems.AttributesOutliveTheirToken` | src/np_aaatoken.c:238-253 | from a cleared token: a first token decoded and found valid, a second of the same issuer decoded without its attributes and reported as success, a check that answers true, although full validation answers true only if both signatures are the same |
| `TokenWitnesses.AttributesDoOutliveTheirToken` | src/np_aaatoken.c:238-253 | a library and two tokens for which that answer is wrong |
| `TokenTheorems.RunKeepsCacheSound` | src/np_aaatoken.c:167-516 | over every run of such decodes and checks the flags tell the truth |
| `TokenTheorems.CachedRefinesFull` | src/np_aaatoken.c:307-516 | from a cleared token, every check of such a run answers like one that always verifies both signatures |
| `TokenTheorems.NewTokensAreJudgedFully` | src/np_aaatoken.c:49-104 | in particular from a newly constructed token |
| `TokenTheorems.NewTokensStartNow` | src/np_aaatoken.c:85-98 | a new token is issued and good from now on for its lifetime, and has no attribute |
| `TokenTheorems.CheckSetsTheValidBit` | src/np_aaatoken.c:338-515 | after a check the VALID bit equals the answer and no other state bit has changed |
| `TokenTheorems.CheckKeepsVerdict` | src/np_aaatoken.c:307-516 | a check answers a verdict that no check changes, until the expiry |
| `TokenTheorems.AnswersOnlyTurnFalse` | src/np_aaatoken.c:344-359 | with a clock that never goes back, the answers over a run of checks are a block of true before a block of false |
| `TokenTheorems.StepKeepsAttributesSigned` | src/np_aaatoken.c:592-613 | setting a partner or countersigning keeps the token signature, leaves attributes whose signature verifies, and stores or keeps the partner |
| `TokenTheorems.RunKeepsAttributesSigned` | src/np_aaatoken.c:592-767 | so does any sequence of them, and the partner read back is the last one set |
| `TokenTheorems.CountersignatureVerifies` | src/np_aaatoken.c:689-721 | a stored countersignature lies under its signee's fingerprint and verifies, with the public key it brings, against the signature of the token |
| `TokenTheorems.IssuerIsThePartner` | src/np_aaatoken.c:639-650 | without a stored partner, the partner is the key whose hexadecimal text the issuer field holds |
| `TokenTheorems.PartnerCases` | src/np_aaatoken.c:631-652 | a stored partner of another size fails the assert, an empty issuer means the token's own fingerprint, an issuer that is no hexadecimal text the zero key |
| `TokenTheorems.FingerprintsAgreeIff` | src/np_aaatoken.c:271-305 | two tokens with signatures of one length have the same fingerprint exactly when token hash and signature agree, for a library that does not confuse the two |
| `TokenTheorems.SelfSignThenUpdate` | src/np_aaatoken.c:655-767 | a self-signature verifies; the attribute signature verifies again after its update or after encode |
| `TokenTheorems.SelfSignKeepsIff` | src/np_aaatoken.c:681-687 | without that update the attribute signature still verifies exactly when the token already carried the signature it is given, for every library that does not confuse the two |
| `TokenWitnesses.SelfSignAloneGoesStale` | src/np_aaatoken.c:681-687 | a library and a token for which it does not |
| `TokenTheorems.SameTokenInputIff` | src/np_aaatoken.c:523-575 | for a library that tells their times apart, two tokens feed the same bytes to the hash exactly when uuid, public key and times agree and realm, issuer, subject and audience joined into one text do, wherever it is cut |
| `TokenTheorems.TokenHashCoversItsFields` | src/np_aaatoken.c:523-575 | so for texts of the same lengths exactly when all nine covered fields agree |
| `TokenWitnesses.LibraryTellsTimesApart` | src/np_aaatoken.c:556-564 | for any two tokens there is such a library |
| `TokenExchange.Exchange` | src/np_aaatoken.c:113-516 | the validity theorem on two objects: sign and encode the one, decode and check the other |
| `TokenTheorems.SubjectAndAudienceRunTogether` | src/np_aaatoken.c:545-550 | without that condition they need not: a byte moved from the end of the subject to the front of the audience leaves the hash as it is |
| `TokenTheorems.AttributesHashCovers` | src/np_aaatoken.c:769-801 | the attribute hash input determines the used attributes and the token signature |
| `TokenModel.CountersignIsStorable` | src/np_aaatoken.c:689-719 | the countersignature attribute is one whose reserved room is right, and its key is never the partner's |
| `EventChain.HistoriesAgree` | src/np_eventqueue.c:176-199 | the handler decides everything: of two histories of a chain one is a beginning of the other |
| `EventChain.CompleteIsLongest` | src/np_eventqueue.c:176-199 | no history goes beyond a complete one |
| `EventChain.CompleteIsUnique` | src/np_eventqueue.c:176-199 | a handler has at most one complete history |
| `EventChain.Runtime.constructor` | src/np_eventqueue.c:157-161 | a new chain is empty |
| `EventChain.Runtime.AddEvent` | src/np_eventqueue.c:62-149 | the event is appended, addressed to the key it is posted to and otherwise as posted, and one reference is taken; a chain of 255 refuses and stays as it is |
| `EventChain.Runtime.AddAll` | src/np_eventqueue.c:62-149 | a handler's posts are appended in order with one reference each, exactly when all of them fit |
| `EventChain.EventsReachTheirKeys` | src/np_eventqueue.c:141-192 | in every history each event is addressed to the key it was posted to and carries the kind, target and user data it was posted with, the first one and all that handlers post |
| `EventChain.Drain` | src/np_eventqueue.c:176-199 | events run in the order they were added, those added meanwhile included; it ends with every queued event run, or with more than 255 queued; index and size stay below 256 |
| `EventChain.Release` | src/np_eventqueue.c:200-214 | one release per queued event that carries an object, in queue order |
| `EventChain.StartWithEvent` | src/np_eventqueue.c:157-221 | the chain runs to its unique complete history, each queued event once and in order, exactly when that history queues at most 255 events |
| `EventChain.DrainedHolds` | src/np_eventqueue.c:141-148 | while the chain drains it holds every object once per queued event that carries it |
| `EventChain.DrainedRuns` | src/np_eventqueue.c:176-199 | the events run so far are the first of the queue, in the order they were added |
| `EventChain.ChainRuns` | src/np_eventqueue.c:176-214 | a complete chain runs exactly the events ever queued, once each, in order |
| `EventChain.ChainBalances` | src/np_eventqueue.c:141-214 | a chain gives back every reference it took: its net effect on every object is zero |
| `EventChain.NeverOverdrawn` | src/np_eventqueue.c:141-214 | at no time has a chain released more than it took |
| `EventChain.HeldUntilTheLastEvent` | src/np_eventqueue.c:200-214 | as long as an event is still to run, every object referenced so far is held |
| `EventChain.RunningEventIsHeld` | src/np_eventqueue.c:141-199 | the object of an event that runs was referenced when the event was queued |
| `Bootstrap.StepKeeps` | src/np_bootstrap.c:131-201 | add, confirm and remove keep the points in key order and one reference per bound point |
| `Bootstrap.ReferencesMatchPoints` | src/np_bootstrap.c:131-201 | after any sequence of them the references on a key number the points bound to it |
| `Bootstrap.StepBinding` | src/np_bootstrap.c:131-201 | what each operation does to each connection string: add leaves a known one alone, confirm binds the exact one if known, else only the wildcard, remove forgets its own |
| `Bootstrap.ConfirmTwiceIsOnce` | src/np_bootstrap.c:142-187 | confirming the same key again changes nothing |
| `Bootstrap.BootstrapList.constructor` | src/np_bootstrap.c:99-119 | the list starts empty and without references |
| `Bootstrap.BootstrapList.Add` | src/np_bootstrap.c:131-140 | list and references after an add, and that they stay consistent |
| `Bootstrap.BootstrapList.Bind` | src/np_bootstrap.c:142-153 | the point is bound, the new key referenced, the replaced one released; nothing happens for the same key |
| `Bootstrap.BootstrapList.Confirm` | src/np_bootstrap.c:155-187 | the exact string is bound, else the wildcard one, else none, consistently |
| `Bootstrap.BootstrapList.Remove` | src/np_bootstrap.c:189-201 | the point is gone and its key released, consistently |
| `Bootstrap.BootstrapList.Reconnect` | src/np_bootstrap.c:46-97 | a pass appends one ping per confirmed point to the chain, exactly when they all fit, with the references it takes and drops |
| `Bootstrap.BootstrapList.ReconnectAlone` | src/np_bootstrap.c:46-97 | as the periodic job runs it, without a chain: each ping, in key order, starts a chain of its own that runs to its unique complete history; it ends early exactly when the chain of a ping would queue more than 255 events |
| `Bootstrap.PingsAreTheConfirmed` | src/np_bootstrap.c:54-93 | exactly the confirmed points are pinged, in key order: each ping is posted to the outbound ping subject, targets the key of its point and carries a message of its own |
| `Bootstrap.ConfirmedAreBound` | src/np_bootstrap.c:56-58 | a key is pinged as often as points are bound to it |
| `Bootstrap.LessMeans` | src/np_bootstrap.c:54-55 | the order of the points: the smaller byte first at the first difference, a string before its continuations |
| `Bootstrap.PassLeavesTheChainsReference` | src/np_bootstrap.c:64-90 | the pass leaves one reference on each of its messages, the chain's, and none on any other |
| `Bootstrap.PassNeverDrops` | src/np_bootstrap.c:64-90 | no release in a pass drops the last reference on a message |
| `Bootstrap.PingsAreReleased` | src/np_bootstrap.c:64-90 | in a whole chain one of whose steps runs the pass, no reference of creation or of the chain is left on any object after the release |
| `Bootstrap.ChainsAloneBalance` | src/np_eventqueue.c:70-73 | a pass whose pings start chains of their own leaves no reference of creation or of a chain on any object, whatever the handlers do |
| `Bootstrap.MessageOutlivesItsChain` | src/np_bootstrap.c:65-90 | the message of a ping that starts its own chain is held until after the chain |
| `Bloom.Position` | src/util/np_bloom.c:1022-1029 | word k of an id falls into block k / 2, inside the filter |
| `Bloom.CellIsPeriodic` | src/util/np_bloom.c:1022-1026 | the cell of a word goes by the word modulo 255 and reaches from the first to the last of its block |
| `Bloom.Filter.constructor` | src/util/np_bloom.c:988-1002 | a new filter is empty with 64 free items |
| `Bloom.Filter.Add` | src/util/np_bloom.c:1016-1052 | the cells of the id are added and one item used up, no 8-bit counter wrapping; a filter without free items refuses and stays as it is |
| `Bloom.Filter.Union` | src/util/np_bloom.c:1331-1357 | the cells are united, exactly when the items together fit |
| `Bloom.Filter.Intersect` | src/util/np_bloom.c:1307-1329 | the cells are intersected, exactly when the items together fit; no item is free afterwards |
| `Bloom.Filter.Same` | src/util/np_bloom.c:1541-1559 | true exactly when the same cells count something |
| `Policy.SetKey` | src/neuropil_attributes.c:201-205 | the cells of the hashed key are added |
| `Policy.SetBin` | src/neuropil_attributes.c:207-215 | the cells of key and value are added and two items used up |
| `Policy.AddAttribute` | src/neuropil_attributes.c:232-273 | the cells of key and value are added and three items used up |
| `Policy.BuildPolicy` | src/neuropil_attributes.c:149-199 | a policy holds the cells of all its requirements, exactly when they cost at most 64 items |
| `Policy.BuildBloom` | src/neuropil_attributes.c:275-282 | for any attribute bytes: the filter gets the cells of all attributes met, exactly when three items each are free, and whether the iteration got to the end |
| `Policy.CheckCompliance` | src/neuropil_attributes.c:284-315 | for any attribute bytes: compliance exactly when the policy is missing or empty, or all attributes can be read and the policy's cells are among theirs; when it refuses and when it aborts |
| `Policy.WellFormedIsComplete` | src/neuropil_attributes.c:284-315 | on a well-formed block that is about its contents |
| `Policy.UnreadableNeverComplies` | src/neuropil_attributes.c:284-315 | attributes that cannot all be read never comply with a policy that asks for anything |
| `Policy.MetPoliciesComply` | src/neuropil_attributes.c:284-315 | no false negatives: attributes that meet every requirement comply whenever both filters have room |
| `Policy.CompliesForEveryHashIff` | src/neuropil_attributes.c:284-315 | attributes comply whatever the hash exactly when every text the policy hashes is among those of the attributes; anything else complies by a collision of cells only |
| `Policy.MissingKeyIsRefused` | src/neuropil_attributes.c:201-205 | for keys of up to 245 bytes a policy that asks for a key none of the attributes has, nor spells as its value, is refused under some hash |
| `Policy.MissingValueIsRefused` | src/neuropil_attributes.c:207-215 | so is one that asks for a value none of them has |
| `Policy.ValuesMeetTheirBytes` | src/neuropil_attributes.c:239-263 | data meets a requirement for its bytes, a number one for its four bytes in memory order |
| `Policy.KeyAndValueComeApart` | src/neuropil_attributes.c:207-215 | one attribute with the key and another with the value of a requirement comply together, under every hash |
| `Policy.CompletesIffThereIsRoom` | src/neuropil_attributes.c:284-315 | a check of a non-empty policy goes through exactly when its cost and three items per attribute are at most 64 |
| `Policy.MoreAttributesKeepComplying` | src/neuropil_attributes.c:284-315 | an attribute under a new key never turns compliance into refusal |
| `Policy.MoreRequirementsOnlyRefuse` | src/neuropil_attributes.c:284-315 | a further requirement never creates compliance |
| `Policy.TooManyAttributesAbort` | src/neuropil_attributes.c:284-315 | with 22 attributes every check that asks for anything aborts |
| `Messages.BuildBody` | src/neuropil.c:628-658 | the body carries the payload and a block with the sender and what fits of the three caches, in this order |
| `Messages.Receive` | src/neuropil.c:703-757 | for any attribute bytes on which the search for the sender ends: what the callback gets, or that it is not called, or that the assert on the sender's size fails |
| `Messages.NobodyIsTheSender` | src/neuropil.c:721-746 | without attributes, or with more than the array takes, the callback gets the payload and the zero identity |
| `Messages.DeliveredIff` | src/neuropil.c:634-750 | when header, sender and the three caches together fit, the callback sees the sender's identity and the payload exactly when the last cache that defines `_np.from`, if any, holds that identity |
| `Messages.ReceiverSeesTheSender` | src/neuropil.c:634-750 | also when merges run out of room: exactly when the last `_np.from` among the objects that were merged, if any, is that identity |
| `Messages.SendAndReceive` | src/neuropil.c:628-757 | the same on the two functions: what is built from the caches and then received is delivered with the sender's identity under exactly these conditions |
| `Messages.CachesWithoutSender` | src/neuropil.c:642-650 | that is so in particular when no cache defines `_np.from` |
| `Messages.CacheCanReplaceTheSender` | src/neuropil.c:642-650 | a last cache with a `_np.from` of its own replaces the sender |
| `Subjects.OrderDoesNotMatter` | src/neuropil.c:136-143 | a subject does not depend on the order its texts are folded in |
| `Subjects.EqualPairsCancel` | src/neuropil.c:136-143 | folding a text twice takes it out again |
| `Subjects.IdXorAssociates` | src/np_dhkey.c:225-239 | combining ids is associative |
| `Subjects.IdXorCancels` | src/np_dhkey.c:225-239 | combining with the same id twice gives back the first, and the zero id is neutral |
| `Subjects.SubjectTable.constructor` | src/neuropil.c:112-113 | before the first call the table is zeroed and not generated |
| `Subjects.SubjectTable.Regenerate` | src/neuropil.c:86-134 | the buffer gets the name of the first known subject with this id, or hexadecimal text that reads back as the id; it is overrun exactly when the subject is unknown and the buffer has 64 bytes; the table is right after any number of calls |
| `Subjects.SubjectTable.GenerateTable` | src/neuropil.c:113-121 | the first call turns the zeroed table into the hashes of the names |
| `Subjects.StringCopy` | src/neuropil.c:125-125 | the text, padded with NULs to the buffer's length, reads back as itself |
| `Subjects.IdString` | src/neuropil.c:1037-1042 | the hexadecimal text and its NUL fit exactly a buffer of at least 65 bytes, and read back as the id |
| `Subjects.SubjectsMapBack` | src/neuropil.c:86-143 | with distinct name hashes a known subject maps back to its own name |
| `Subjects.NamesDiffer` | src/neuropil.c:95-110 | the sixteen names differ |
| `Subjects.HashesCanDiffer` | src/neuropil.c:113-119 | so there are hashes that tell them apart |

## Left out

Where a contract asks for more than the code checks:

- Datablock.SearchObject: blocks on which the search ends; Walk.SearchAnswersIff says which, and that the source does not return on the others.
- Datablock.SetData: the block is well-formed or its header unreadable; at most 65535 objects, since the source's 16-bit loop counters do not end beyond that, and not both a value and a block of 2 GiB or more, whose distance overflows an int32_t; the bytes after a failed assert are not stated, and the value does not lie inside the block.
- Datablock.WriteObject: the encoder's library is not part of this model; it is taken to write whole additions in call order and nothing more once one does not fit.
- Datablock.MergeData: source and destination are different blocks, the destination as for SetData, and what is read from the source can be handed to SetData: keys of at most 254 bytes, which the source copies unchecked into a char[255].
- Datablock.IterateData: the callback changes only its own user data, not the block.
- Datablock.InitDatablock: what a refused, too short block contains afterwards, beyond that no byte behind it changed.
- AaaToken.AaaToken.Decode: the tree holds the thirteen fields with the types and sizes decode reads them with; other entries and conversions of numbers to text are not modelled.
- AaaToken.AaaToken.IsValid: the used length in the attribute header does not exceed the array, which the source does not check before hashing; a NULL token is not a value of the model.
- AaaToken.AaaToken.SetPartnerFp: the attribute block is well-formed; the two other scopes fail the source's assert.
- AaaToken.AaaToken.SetSignatureBy: the asserts of the source on the signee and on the issuer are preconditions.
- Messages.BuildBody: the three caches are well-formed where their headers are readable, as runs of harmless sets leave them; the results of the merges are ignored as in the source.
- Policy.CheckCompliance: the state of scratch filters after an abort.
- DatablockRuns.RunRefinesMap: sets that are not harmless are outside the run; SetIsSafeIffHarmless says why.
- TokenTheorems.CachedRefinesFull: decodes that can leave a false flag are outside the run; StandingFlags and AttributesOutliveTheirToken say why.

Not modelled at all:

- Reading behind the end of a block: an object that does not end inside it is unreadable here, while the source reads on.
- The QCBOR library beyond item heads: objects with keys that are no text, several tags on one value, and tagged numbers out of range; the alternative msgpack serializer.
- `_np_iterate_data_mapreduce`, whose loop cannot run since it never reads the header; printing of datablocks.
- The aliasing of value pointers returned by np_get_data with the block; the model returns copies.
- The fingerprint with extensions, `np_user4aaatoken` and `np_aaatoken4user`, token lists and reference lists.
- The token's reserved fields and the derived key-exchange keys, which no modelled check reads.
- IEEE rounding: doubles are reals, and enumerations of flags are 8-bit vectors.
- Handlers that add events without a chain, which starts a nested one inside the running one; keys and components behind the handler.
- Wire encoding and encryption of message trees, the rest of np_send_to and of the receive path, message properties.
- The context lifecycle (`np_new_context`, `np_run`, `np_join`, `np_use_identity`, `np_destroy`): status fields set in separate lock scopes, with easy members only.
- Thin wrappers such as `np_get_msg_attr_bin`, `np_get_token_attr_bin` and the attribute setters of identities and subjects.
- Threads and spinlocks: each locked section is one step. Memory pools, destruction of the bootstrap module, logging, statistics.
- The Bloom filter's ageing, removal, serialization and similarity functions.
