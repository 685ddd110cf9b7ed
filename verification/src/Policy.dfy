/** Attribute policies of src/neuropil_attributes.c: requirements and attributes are folded
    into Bloom filters, and attributes comply when the policy's cells are among theirs. */
module Policy {
  import opened Bytes
  import opened KvCodec
  import opened Layout
  import opened Datablock
  import opened Bloom

  /** The key hash of the library, a parameter. */
  type Hash = seq<byte> -> Words

  const REQUIRED: seq<byte> := Ascii(":required")

  /** The text np_dhkey_create_from_hostport makes of a key: cut at 254 bytes. */
  function KeyText(key: Key): seq<byte> {
    var name := key + REQUIRED;
    if |name| > 254 then name[..254] else name
  }

  /** np_dhkey_create_from_hostport(key, "required") */
  function KeyHash(h: Hash, key: Key): Words {
    h(KeyText(key))
  }

  /** The four bytes of an int32_t or uint32_t in memory order. */
  function LittleEndian(n: int): seq<byte> {
    var u := n % 0x1_0000_0000;
    [u % 256, u / 256 % 256, u / 0x1_0000 % 256, u / 0x100_0000]
  }

  /** The bytes of a value that are hashed. */
  function ValueBytes(v: Value): seq<byte> {
    match v
    case Bin(b) => b
    case Str(t) => t
    case Int(n) => LittleEndian(n)
    case UInt(n) => LittleEndian(n)
  }

  // -------------------------------------------------- cells as plain sets

  datatype Requirement = NeedKey(key: Key) | NeedValue(key: Key, bytes: seq<byte>)

  function KeyCells(h: Hash, key: Key): set<nat> {
    Positions(KeyHash(h, key))
  }

  function ValueCells(h: Hash, key: Key, bytes: seq<byte>): set<nat> {
    KeyCells(h, key) + Positions(h(bytes))
  }

  function RequirementCells(h: Hash, r: Requirement): set<nat> {
    match r
    case NeedKey(key) => KeyCells(h, key)
    case NeedValue(key, bytes) => ValueCells(h, key, bytes)
  }

  function PolicyCells(h: Hash, rs: seq<Requirement>): set<nat> {
    if rs == [] then {} else PolicyCells(h, rs[..|rs| - 1]) + RequirementCells(h, rs[|rs| - 1])
  }

  function AttributeCells(h: Hash, objs: seq<Obj>): set<nat> {
    if objs == [] then {}
    else
      var o := objs[|objs| - 1];
      AttributeCells(h, objs[..|objs| - 1]) + ValueCells(h, o.key, ValueBytes(o.value))
  }

  /** The items a policy takes up in its filter. */
  function Cost(rs: seq<Requirement>): nat {
    if rs == [] then 0 else Cost(rs[..|rs| - 1]) + (if rs[|rs| - 1].NeedKey? then 1 else 2)
  }

  // ---------------------------------------------------------- operations

  /** _np_policy_set_key */
  method SetKey(h: Hash, bloom: Filter, key: Key) returns (ok: bool)
    requires bloom.Valid()
    modifies bloom, bloom.bits
    ensures bloom.Valid() && ok == (old(bloom.free) >= 1)
    ensures ok ==> bloom.free == old(bloom.free) - 1 && bloom.Contents() == old(bloom.Contents()) + KeyCells(h, key)
  {
    ok := bloom.Add(KeyHash(h, key));
  }

  /** _np_policy_set_bin */
  method SetBin(h: Hash, bloom: Filter, key: Key, bytes: seq<byte>) returns (ok: bool)
    requires bloom.Valid()
    modifies bloom, bloom.bits
    ensures bloom.Valid() && ok == (old(bloom.free) >= 2)
    ensures ok ==> bloom.free == old(bloom.free) - 2
    ensures ok ==> bloom.Contents() == old(bloom.Contents()) + ValueCells(h, key, bytes)
  {
    hide Positions, Bounded;
    ok := SetKey(h, bloom, key);
    if ok {
      ok := bloom.Add(h(bytes));
    }
  }

  /** __np_policy_classic_build_attribute_bloom: the key, then key and value. */
  method AddAttribute(h: Hash, bloom: Filter, o: Obj) returns (ok: bool)
    requires bloom.Valid()
    modifies bloom, bloom.bits
    ensures bloom.Valid() && ok == (old(bloom.free) >= 3)
    ensures ok ==>
              && bloom.free == old(bloom.free) - 3
              && bloom.Contents() == old(bloom.Contents()) + ValueCells(h, o.key, ValueBytes(o.value))
  {
    hide Positions, Bounded, ValueBytes;
    ok := SetKey(h, bloom, o.key);
    if ok {
      ok := SetBin(h, bloom, o.key, ValueBytes(o.value));
    }
  }

  /** A policy from a list of requirements, as np_set_mxp_attr_policy_bin builds it call by call. */
  method BuildPolicy(h: Hash, rs: seq<Requirement>) returns (ok: bool, policy: Filter)
    ensures policy.Valid() && fresh(policy) && fresh(policy.bits)
    ensures ok == (Cost(rs) <= FREE_ITEMS)
    ensures ok ==> policy.free == FREE_ITEMS - Cost(rs) && policy.Contents() == PolicyCells(h, rs)
  {
    hide Positions, Bounded, KeyCells, ValueCells;
    policy := new Filter();
    for i := 0 to |rs|
      invariant policy.Valid() && fresh(policy) && fresh(policy.bits)
      invariant policy.free == FREE_ITEMS - Cost(rs[..i]) && policy.Contents() == PolicyCells(h, rs[..i])
    {
      assert rs[..i + 1][..i] == rs[..i];
      match rs[i] {
        case NeedKey(key) => ok := SetKey(h, policy, key);
        case NeedValue(key, bytes) => ok := SetBin(h, policy, key, bytes);
      }
      if !ok {
        CostGrows(rs, i + 1);
        return false, policy;
      }
    }
    assert rs[..|rs|] == rs;
    ok := true;
  }

  lemma {:induction false} CostGrows(rs: seq<Requirement>, i: nat)
    requires i <= |rs|
    ensures Cost(rs[..i]) <= Cost(rs)
    decreases |rs| - i
  {
    if i == |rs| {
      assert rs[..i] == rs;
    } else {
      CostGrows(rs, i + 1);
      assert rs[..i + 1][..i] == rs[..i];
    }
  }

  datatype Built = Folded(readable: bool) | FilterFull

  /** The callback of the iteration: it never refuses. */
  function Collect(objs: seq<Obj>, o: Obj): (seq<Obj>, bool) {
    (objs + [o], true)
  }

  lemma {:induction false} CollectsAll(got: seq<Obj>, objs: seq<Obj>)
    ensures var fed := Feed(Collect, got, objs); fed.state == got + objs && !fed.refused
    decreases |objs|
  {
    if objs == [] {
      assert got + objs == got;
    } else {
      CollectsAll(got + [objs[0]], objs[1..]);
      assert got + [objs[0]] + objs[1..] == got + objs;
    }
  }

  /** The attributes can be iterated to the end. */
  predicate Complete(b: seq<byte>)
    requires |b| >= HEADER_SIZE
  {
    ReadHeader(b).0.Ok? && |Iterated(b)| == GoalOf(b)
  }

  /** _np_attribute_build_bloom: np_iterate_data, and the callback's additions in its order. */
  method BuildBloom(h: Hash, target: Filter, attributes: array<byte>) returns (built: Built)
    requires target.Valid() && target.bits != attributes && attributes.Length >= HEADER_SIZE
    modifies target, target.bits
    ensures target.Valid()
    ensures var objs := Iterated(attributes[..]);
            && (built.FilterFull? <==> 3 * |objs| > old(target.free))
            && (built.Folded? ==>
                  && built.readable == Complete(attributes[..])
                  && target.free == old(target.free) - 3 * |objs|
                  && target.Contents() == old(target.Contents()) + AttributeCells(h, objs))
  {
    hide ReadHeader, Iterated, Feed, Positions, Bounded, ValueCells, ValueBytes, GoalOf;
    var ret, objs := IterateData(attributes, Collect, []);
    ghost var b, cells, room := attributes[..], target.Contents(), target.free;
    CollectsAll([], Iterated(b));
    assert [] + Iterated(b) == objs;
    for i := 0 to |objs|
      invariant target.Valid() && attributes[..] == b
      invariant target.free == room - 3 * i
      invariant target.Contents() == cells + AttributeCells(h, objs[..i])
    {
      var ok := AddAttribute(h, target, objs[i]);
      if !ok {
        return FilterFull;
      }
      assert objs[..i + 1][..i] == objs[..i];
    }
    assert objs[..|objs|] == objs;
    return Folded(ret.Ok?);
  }

  /** The outcomes of a compliance check; Aborts stands for a full filter or a failed ASSERT. */
  datatype Compliance = Complies | Refuses | Aborts

  /** What _np_policy_check_compliance answers for a policy with these cells and items. */
  function Verdict(h: Hash, cells: set<nat>, items: nat, readable: bool, objs: seq<Obj>): Compliance {
    if cells == {} then Complies
    else if 3 * |objs| > FREE_ITEMS then Aborts
    else if !readable then Refuses
    else if items + 3 * |objs| > FREE_ITEMS then Aborts
    else if cells <= AttributeCells(h, objs) then Complies
    else Refuses
  }

  /** _np_policy_check_compliance */
  method CheckCompliance(h: Hash, policy: Filter?, attributes: array<byte>) returns (c: Compliance)
    requires policy != null ==> policy.Valid() && policy.bits != attributes
    requires attributes.Length >= HEADER_SIZE
    ensures policy == null ==> c == Complies
    ensures policy != null ==>
              c == Verdict(h, policy.Contents(), FREE_ITEMS - policy.free,
                           Complete(attributes[..]), Iterated(attributes[..]))
  {
    hide ReadHeader, Iterated, Bounded, Support, AttributeCells;
    if policy == null {
      return Complies;
    }
    ghost var b, want := attributes[..], policy.Contents();
    var all := new Filter();
    var empty := all.Same(policy);
    if empty {
      return Complies;
    }
    var built := BuildBloom(h, all, attributes);
    if built.FilterFull? {
      return Aborts;
    }
    if !built.readable {
      return Refuses;
    }
    var relevant := new Filter();
    var ok := relevant.Union(policy);
    assert relevant.Contents() == want;
    ok := relevant.Intersect(all);
    if !ok {
      return Aborts;
    }
    var same := policy.Same(relevant);
    assert want == want * AttributeCells(h, Iterated(b)) <==> want <= AttributeCells(h, Iterated(b));
    return if same then Complies else Refuses;
  }

  // ------------------------------------------------------------ theorems

  /** On a well-formed block the check is about the block's contents. */
  lemma WellFormedIsComplete(b: seq<byte>)
    requires WellFormed(b)
    ensures Complete(b) && Iterated(b) == Layout.Contents(b)
  {
    hide ReadHeader, Parse, Holds;
    HeaderIsRead(b);
    IteratedIsContents(b);
  }

  /** A block with an unreadable object never complies with a policy that asks for anything. */
  lemma UnreadableNeverComplies(h: Hash, b: seq<byte>, rs: seq<Requirement>)
    requires |b| >= HEADER_SIZE && !Complete(b) && rs != []
    ensures Verdict(h, PolicyCells(h, rs), Cost(rs), Complete(b), Iterated(b)) != Complies
  {
    hide AttributeCells, RequirementCells, ReadHeader, Iterated;
    RequirementsAddCells(h, rs[|rs| - 1]);
  }

  lemma {:induction false} AttributeCellsMember(h: Hash, objs: seq<Obj>, i: nat)
    requires i < |objs|
    ensures ValueCells(h, objs[i].key, ValueBytes(objs[i].value)) <= AttributeCells(h, objs)
  {
    hide ValueCells;
    if i < |objs| - 1 {
      AttributeCellsMember(h, objs[..|objs| - 1], i);
    }
  }

  /** An attribute meets a requirement: it has the key, and the value where one is asked for. */
  predicate Meets(o: Obj, r: Requirement) {
    o.key == r.key && (r.NeedValue? ==> ValueBytes(o.value) == r.bytes)
  }

  ghost predicate Met(objs: seq<Obj>, r: Requirement) {
    exists i | 0 <= i < |objs| :: Meets(objs[i], r)
  }

  ghost predicate MeetsAll(objs: seq<Obj>, rs: seq<Requirement>) {
    forall j | 0 <= j < |rs| :: Met(objs, rs[j])
  }

  lemma {:induction false} MetRequirementsAreCovered(h: Hash, objs: seq<Obj>, rs: seq<Requirement>)
    requires MeetsAll(objs, rs)
    ensures PolicyCells(h, rs) <= AttributeCells(h, objs)
  {
    hide KeyCells, AttributeCells;
    if rs != [] {
      var n := |rs| - 1;
      MetRequirementsAreCovered(h, objs, rs[..n]);
      assert Met(objs, rs[n]);
      var i :| 0 <= i < |objs| && Meets(objs[i], rs[n]);
      AttributeCellsMember(h, objs, i);
    }
  }

  /** No false negatives: attributes that meet every requirement comply, whenever the two
      filters have room. */
  lemma MetPoliciesComply(h: Hash, objs: seq<Obj>, rs: seq<Requirement>)
    requires MeetsAll(objs, rs) && Cost(rs) + 3 * |objs| <= FREE_ITEMS
    ensures Verdict(h, PolicyCells(h, rs), Cost(rs), true, objs) == Complies
  {
    hide PolicyCells, AttributeCells;
    MetRequirementsAreCovered(h, objs, rs);
  }

  /** The check goes through exactly when the policy is empty or both filters have room. */
  lemma CompletesIffThereIsRoom(h: Hash, objs: seq<Obj>, rs: seq<Requirement>)
    requires PolicyCells(h, rs) != {}
    ensures Verdict(h, PolicyCells(h, rs), Cost(rs), true, objs) != Aborts <==> Cost(rs) + 3 * |objs| <= FREE_ITEMS
  {
    hide PolicyCells, AttributeCells;
  }

  /** An attribute under a new key never turns compliance into refusal; at most it
      overfills the filters. */
  lemma MoreAttributesKeepComplying(h: Hash, objs: seq<Obj>, o: Obj, rs: seq<Requirement>)
    requires !Has(objs, o.key)
    requires Verdict(h, PolicyCells(h, rs), Cost(rs), true, objs) == Complies
    ensures Verdict(h, PolicyCells(h, rs), Cost(rs), true, Put(objs, o)) != Refuses
  {
    hide PolicyCells;
    assert (objs + [o])[..|objs|] == objs;
  }

  /** A further requirement never creates compliance. */
  lemma MoreRequirementsOnlyRefuse(h: Hash, objs: seq<Obj>, rs: seq<Requirement>, r: Requirement)
    requires Verdict(h, PolicyCells(h, rs + [r]), Cost(rs + [r]), true, objs) == Complies
    ensures Verdict(h, PolicyCells(h, rs), Cost(rs), true, objs) == Complies
  {
    hide AttributeCells, RequirementCells;
    assert (rs + [r])[..|rs|] == rs;
    RequirementsAddCells(h, r);
  }

  lemma RequirementsAddCells(h: Hash, r: Requirement)
    ensures RequirementCells(h, r) != {}
  {
    assert Position(KeyHash(h, r.key), 0) in KeyCells(h, r.key);
  }

  /** The filters do fill up: with 22 attributes every policy that asks for anything aborts. */
  lemma TooManyAttributesAbort(h: Hash, objs: seq<Obj>, rs: seq<Requirement>)
    requires rs != [] && |objs| >= 22
    ensures Verdict(h, PolicyCells(h, rs), Cost(rs), true, objs) == Aborts
  {
    hide AttributeCells, RequirementCells;
    RequirementsAddCells(h, rs[|rs| - 1]);
  }

  // ------------------------------------------------- what is ever refused

  /** The texts whose hashes make up a policy, and those of an attribute block. */
  function RequirementTexts(r: Requirement): set<seq<byte>> {
    match r
    case NeedKey(key) => {KeyText(key)}
    case NeedValue(key, bytes) => {KeyText(key), bytes}
  }

  function PolicyTexts(rs: seq<Requirement>): set<seq<byte>> {
    if rs == [] then {} else PolicyTexts(rs[..|rs| - 1]) + RequirementTexts(rs[|rs| - 1])
  }

  function AttributeTexts(objs: seq<Obj>): set<seq<byte>> {
    if objs == [] then {}
    else
      var o := objs[|objs| - 1];
      AttributeTexts(objs[..|objs| - 1]) + {KeyText(o.key), ValueBytes(o.value)}
  }

  lemma {:induction false} AttributeTextIsCovered(h: Hash, objs: seq<Obj>, x: seq<byte>)
    requires x in AttributeTexts(objs)
    ensures Positions(h(x)) <= AttributeCells(h, objs)
  {
    hide Positions, KeyText, ValueBytes;
    var n := |objs| - 1;
    if x in AttributeTexts(objs[..n]) {
      AttributeTextIsCovered(h, objs[..n], x);
    }
  }

  lemma {:induction false} PolicyTextsAreCovered(h: Hash, objs: seq<Obj>, rs: seq<Requirement>)
    requires PolicyTexts(rs) <= AttributeTexts(objs)
    ensures PolicyCells(h, rs) <= AttributeCells(h, objs)
  {
    hide Positions, KeyText, AttributeCells, AttributeTexts;
    if rs != [] {
      var r := rs[|rs| - 1];
      PolicyTextsAreCovered(h, objs, rs[..|rs| - 1]);
      assert KeyText(r.key) in RequirementTexts(r);
      AttributeTextIsCovered(h, objs, KeyText(r.key));
      if r.NeedValue? {
        assert r.bytes in RequirementTexts(r);
        AttributeTextIsCovered(h, objs, r.bytes);
      }
    }
  }

  lemma {:induction false} PolicyTextCounts(h: Hash, rs: seq<Requirement>, x: seq<byte>)
    requires x in PolicyTexts(rs)
    ensures Positions(h(x)) <= PolicyCells(h, rs)
  {
    hide Positions, KeyText;
    var n := |rs| - 1;
    if x in PolicyTexts(rs[..n]) {
      PolicyTextCounts(h, rs[..n], x);
    }
  }

  const ZERO_WORDS: Words := [0, 0, 0, 0, 0, 0, 0, 0]
  const ONE_WORDS: Words := [1, 1, 1, 1, 1, 1, 1, 1]

  /** A hash that singles out one text. */
  function Single(x: seq<byte>): Hash {
    y => if y == x then ONE_WORDS else ZERO_WORDS
  }

  lemma {:induction false} OthersLookAlike(x: seq<byte>, objs: seq<Obj>)
    requires x !in AttributeTexts(objs)
    ensures AttributeCells(Single(x), objs) <= Positions(ZERO_WORDS)
  {
    hide Positions, KeyText, ValueBytes;
    if objs != [] {
      OthersLookAlike(x, objs[..|objs| - 1]);
    }
  }

  lemma SingledOutIsNew()
    ensures Position(ONE_WORDS, 0) in Positions(ONE_WORDS) && Position(ONE_WORDS, 0) !in Positions(ZERO_WORDS)
  {
    assert forall k | 0 <= k < 8 :: Position(ZERO_WORDS, k) == k / 2 * BLOCK_CELLS;
    assert Position(ONE_WORDS, 0) == 7;
  }

  /** A text that is asked for and not there is refused under some hash. */
  lemma MissingTextIsRefused(objs: seq<Obj>, rs: seq<Requirement>, x: seq<byte>)
    requires x in PolicyTexts(rs) && x !in AttributeTexts(objs) && Cost(rs) + 3 * |objs| <= FREE_ITEMS
    ensures Verdict(Single(x), PolicyCells(Single(x), rs), Cost(rs), true, objs) == Refuses
  {
    hide PolicyCells, AttributeCells, PolicyTexts, AttributeTexts, Positions, Position;
    PolicyTextCounts(Single(x), rs, x);
    OthersLookAlike(x, objs);
    SingledOutIsNew();
    assert Position(ONE_WORDS, 0) in PolicyCells(Single(x), rs);
    assert Position(ONE_WORDS, 0) !in AttributeCells(Single(x), objs);
  }

  /** What complies whatever the hash: exactly the attributes among whose texts are all those
      the policy asks for. Anything else complies by a collision of cells only. */
  lemma CompliesForEveryHashIff(objs: seq<Obj>, rs: seq<Requirement>)
    requires Cost(rs) + 3 * |objs| <= FREE_ITEMS
    ensures (forall h: Hash :: Verdict(h, PolicyCells(h, rs), Cost(rs), true, objs) == Complies)
       <==> PolicyTexts(rs) <= AttributeTexts(objs)
  {
    hide PolicyCells, AttributeCells, PolicyTexts, AttributeTexts;
    if PolicyTexts(rs) <= AttributeTexts(objs) {
      forall h: Hash ensures Verdict(h, PolicyCells(h, rs), Cost(rs), true, objs) == Complies {
        PolicyTextsAreCovered(h, objs, rs);
      }
    } else {
      var x :| x in PolicyTexts(rs) && x !in AttributeTexts(objs);
      MissingTextIsRefused(objs, rs, x);
      assert Verdict(Single(x), PolicyCells(Single(x), rs), Cost(rs), true, objs) != Complies;
    }
  }

  /** Keys of up to 245 bytes are hashed whole, with the word that marks a key. */
  lemma ShortKeysAreWhole(key: Key)
    requires |key| <= 245
    ensures KeyText(key) == key + Ascii(":required")
  {
  }

  lemma SameTextSameKey(a: Key, b: Key)
    requires |a| <= 245 && |b| <= 245 && KeyText(a) == KeyText(b)
    ensures a == b
  {
    hide KeyText, Ascii;
    ShortKeysAreWhole(a);
    ShortKeysAreWhole(b);
    var x := KeyText(a);
    assert |a| == |b|;
    assert a == x[..|a|] && b == x[..|b|];
  }

  lemma {:induction false} AttributeTextComesFrom(objs: seq<Obj>, x: seq<byte>) returns (i: nat)
    requires x in AttributeTexts(objs)
    ensures i < |objs| && (x == KeyText(objs[i].key) || x == ValueBytes(objs[i].value))
  {
    hide KeyText, ValueBytes;
    var n := |objs| - 1;
    if x in AttributeTexts(objs[..n]) {
      i := AttributeTextComesFrom(objs[..n], x);
    } else {
      i := n;
    }
  }

  /** A missing key is refused under some hash, whatever else there is; only a value that
      spells the key's own text can stand in for it. */
  lemma MissingKeyIsRefused(objs: seq<Obj>, key: Key) returns (h: Hash)
    requires |key| <= 245 && 1 + 3 * |objs| <= FREE_ITEMS
    requires forall i | 0 <= i < |objs| ::
               |objs[i].key| <= 245 && objs[i].key != key && ValueBytes(objs[i].value) != key + Ascii(":required")
    ensures Verdict(h, PolicyCells(h, [NeedKey(key)]), 1, true, objs) == Refuses
  {
    hide KeyText, ValueBytes, Ascii, PolicyCells, AttributeCells;
    var x := KeyText(key);
    ShortKeysAreWhole(key);
    if x in AttributeTexts(objs) {
      var i := AttributeTextComesFrom(objs, x);
      if x == KeyText(objs[i].key) {
        SameTextSameKey(key, objs[i].key);
      }
      assert false;
    }
    OneRequirement(NeedKey(key));
    MissingTextIsRefused(objs, [NeedKey(key)], x);
    h := Single(x);
  }

  lemma OneRequirement(r: Requirement)
    ensures PolicyTexts([r]) == RequirementTexts(r) && Cost([r]) == if r.NeedKey? then 1 else 2
  {
    assert [r][..0] == [];
  }

  /** So is a missing value. */
  lemma MissingValueIsRefused(objs: seq<Obj>, key: Key, bytes: seq<byte>) returns (h: Hash)
    requires 2 + 3 * |objs| <= FREE_ITEMS
    requires forall i | 0 <= i < |objs| ::
               |objs[i].key| <= 245 && ValueBytes(objs[i].value) != bytes && objs[i].key + Ascii(":required") != bytes
    ensures Verdict(h, PolicyCells(h, [NeedValue(key, bytes)]), 2, true, objs) == Refuses
  {
    hide KeyText, ValueBytes, Ascii, PolicyCells, AttributeCells;
    if bytes in AttributeTexts(objs) {
      var i := AttributeTextComesFrom(objs, bytes);
      ShortKeysAreWhole(objs[i].key);
      assert false;
    }
    OneRequirement(NeedValue(key, bytes));
    MissingTextIsRefused(objs, [NeedValue(key, bytes)], bytes);
    h := Single(bytes);
  }

  /** Four bytes in memory order as a number. */
  function Number(b: seq<byte>): nat
    requires |b| == 4
  {
    b[0] as int + 0x100 * (b[1] as int) + 0x1_0000 * (b[2] as int) + 0x100_0000 * (b[3] as int)
  }

  /** Data meets a requirement for its own bytes, a number one for its four bytes in memory order. */
  lemma ValuesMeetTheirBytes(h: Hash, key: Key, b: seq<byte>, n: int)
    requires |b| == 4 && n % 0x1_0000_0000 == Number(b)
    ensures forall v | v in {Bin(b), Str(b), Int(n)} || (n >= 0 && v == UInt(n)) ::
              Verdict(h, PolicyCells(h, [NeedValue(key, b)]), 2, true, [Obj(key, v)]) == Complies
  {
    hide PolicyCells, Verdict;
    LittleEndianBytes(b, n);
    forall v | v in {Bin(b), Str(b), Int(n)} || (n >= 0 && v == UInt(n))
      ensures Verdict(h, PolicyCells(h, [NeedValue(key, b)]), 2, true, [Obj(key, v)]) == Complies
    {
      OneRequirement(NeedValue(key, b));
      assert Meets([Obj(key, v)][0], NeedValue(key, b));
      MetPoliciesComply(h, [Obj(key, v)], [NeedValue(key, b)]);
    }
  }

  lemma LittleEndianBytes(b: seq<byte>, n: int)
    requires |b| == 4 && n % 0x1_0000_0000 == Number(b)
    ensures LittleEndian(n) == b
  {
    var u := n % 0x1_0000_0000;
    var b0, b1, b2, b3 := b[0] as int, b[1] as int, b[2] as int, b[3] as int;
    assert u / 0x100_0000 == b3;
    assert u / 0x1_0000 == b2 + 0x100 * b3 && (b2 + 0x100 * b3) % 256 == b2;
    assert u / 256 == b1 + 0x100 * (b2 + 0x100 * b3) && (b1 + 0x100 * (b2 + 0x100 * b3)) % 256 == b1;
    assert u % 256 == b0;
  }

  /** Key and value of a requirement are not held together: one attribute with the key and
      another with the value comply under every hash. */
  lemma KeyAndValueComeApart(h: Hash, k1: Key, v1: seq<byte>, k2: Key, v2: seq<byte>)
    ensures var objs := [Obj(k1, Bin(v1)), Obj(k2, Bin(v2))];
            Verdict(h, PolicyCells(h, [NeedValue(k1, v2)]), 2, true, objs) == Complies
  {
    hide PolicyCells, AttributeCells, KeyText;
    var objs, r := [Obj(k1, Bin(v1)), Obj(k2, Bin(v2))], NeedValue(k1, v2);
    assert objs[..1] == [objs[0]] && [objs[0]][..0] == [];
    OneRequirement(r);
    PolicyTextsAreCovered(h, objs, [r]);
  }
}
