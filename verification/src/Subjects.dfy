/** Subjects of src/neuropil.c: 32-byte ids built by folding text hashes with XOR, and the
    table that maps the ids of the known subjects back to their names. */
module Subjects {
  import opened Bytes
  import opened Hex

  const ID_SIZE := 32

  type Id = s: seq<byte> | |s| == ID_SIZE witness seq(ID_SIZE, i => 0)

  // ------------------------------------------------------------ exclusive or

  /** XOR of the n low-order bits. */
  function XorBits(a: nat, b: nat, n: nat): (r: nat)
    ensures n == 0 ==> r == 0
  {
    if n == 0 then 0 else (if a % 2 == b % 2 then 0 else 1) + 2 * XorBits(a / 2, b / 2, n - 1)
  }

  function Pow2(n: nat): nat {
    if n == 0 then 1 else 2 * Pow2(n - 1)
  }

  lemma {:induction false} XorFits(a: nat, b: nat, n: nat)
    ensures XorBits(a, b, n) < Pow2(n)
  {
    if n > 0 { XorFits(a / 2, b / 2, n - 1); }
  }

  lemma {:induction false} XorCommutes(a: nat, b: nat, n: nat)
    ensures XorBits(a, b, n) == XorBits(b, a, n)
  {
    if n > 0 { XorCommutes(a / 2, b / 2, n - 1); }
  }

  lemma XorHalves(a: nat, b: nat, n: nat)
    requires n > 0
    ensures XorBits(a, b, n) % 2 == if a % 2 == b % 2 then 0 else 1
    ensures XorBits(a, b, n) / 2 == XorBits(a / 2, b / 2, n - 1)
  {
  }

  lemma SameHalves(x: nat, y: nat)
    requires x % 2 == y % 2 && x / 2 == y / 2
    ensures x == y
  {
  }

  lemma {:induction false} XorAssociates(a: nat, b: nat, c: nat, n: nat)
    ensures XorBits(XorBits(a, b, n), c, n) == XorBits(a, XorBits(b, c, n), n)
  {
    hide XorBits;
    if n > 0 {
      var ab, bc := XorBits(a, b, n), XorBits(b, c, n);
      XorHalves(a, b, n);
      XorHalves(b, c, n);
      XorAssociates(a / 2, b / 2, c / 2, n - 1);
      XorHalves(ab, c, n);
      XorHalves(a, bc, n);
      SameHalves(XorBits(ab, c, n), XorBits(a, bc, n));
    }
  }

  lemma {:induction false} XorCancels(a: nat, n: nat)
    ensures XorBits(a, a, n) == 0
  {
    if n > 0 { XorCancels(a / 2, n - 1); }
  }

  lemma {:induction false} XorWithZero(a: nat, n: nat)
    requires a < Pow2(n)
    ensures XorBits(a, 0, n) == a
  {
    if n > 0 { XorWithZero(a / 2, n - 1); }
  }

  lemma Pow2Of8()
    ensures Pow2(8) == 256
  {
    assert Pow2(4) == 16;
  }

  function Xor8(a: byte, b: byte): byte {
    XorFits(a, b, 8);
    Pow2Of8();
    XorBits(a, b, 8)
  }

  /** _np_dhkey_xor, byte by byte. */
  function Xor(x: Id, y: Id): (r: Id)
    ensures forall i | 0 <= i < ID_SIZE :: r[i] == Xor8(x[i], y[i])
  {
    seq(ID_SIZE, i requires 0 <= i < ID_SIZE => Xor8(x[i], y[i]))
  }

  const ZERO: Id := seq(ID_SIZE, i => 0)

  lemma IdXorCommutes(x: Id, y: Id)
    ensures Xor(x, y) == Xor(y, x)
  {
    hide XorBits;
    forall i | 0 <= i < ID_SIZE ensures Xor8(x[i], y[i]) == Xor8(y[i], x[i]) {
      XorCommutes(x[i], y[i], 8);
    }
  }

  lemma IdXorAssociates(x: Id, y: Id, z: Id)
    ensures Xor(Xor(x, y), z) == Xor(x, Xor(y, z))
  {
    hide XorBits;
    forall i | 0 <= i < ID_SIZE ensures Xor8(Xor8(x[i], y[i]), z[i]) == Xor8(x[i], Xor8(y[i], z[i])) {
      XorAssociates(x[i], y[i], z[i], 8);
    }
  }

  lemma IdXorCancels(x: Id, y: Id)
    ensures Xor(x, Xor(x, y)) == y && Xor(x, ZERO) == x
  {
    hide XorBits;
    Pow2Of8();
    forall i | 0 <= i < ID_SIZE ensures Xor8(x[i], Xor8(x[i], y[i])) == y[i] && Xor8(x[i], 0) == x[i] {
      XorAssociates(x[i], x[i], y[i], 8);
      XorCancels(x[i], 8);
      XorCommutes(0, y[i], 8);
      XorWithZero(y[i], 8);
      XorWithZero(x[i], 8);
    }
  }

  // ---------------------------------------------------------------- folding

  /** _np_dhkey_generate_hash, a parameter. */
  type TextHash = seq<byte> -> Id

  /** np_generate_subject: the id is the base the text is folded into. */
  function Generate(h: TextHash, id: Id, text: seq<byte>): Id {
    Xor(h(text), id)
  }

  function Fold(h: TextHash, id: Id, texts: seq<seq<byte>>): Id
    decreases |texts|
  {
    if texts == [] then id else Fold(h, Generate(h, id, texts[0]), texts[1..])
  }

  lemma GenerateSwaps(h: TextHash, id: Id, s: seq<byte>, t: seq<byte>)
    ensures Generate(h, Generate(h, id, s), t) == Generate(h, Generate(h, id, t), s)
  {
    hide Xor;
    IdXorAssociates(h(t), h(s), id);
    IdXorAssociates(h(s), h(t), id);
    IdXorCommutes(h(t), h(s));
  }

  lemma {:induction false} FoldConcat(h: TextHash, id: Id, a: seq<seq<byte>>, b: seq<seq<byte>>)
    ensures Fold(h, id, a + b) == Fold(h, Fold(h, id, a), b)
    decreases |a|
  {
    hide Generate;
    if a == [] {
      assert a + b == b;
    } else {
      assert (a + b)[1..] == a[1..] + b;
      FoldConcat(h, Generate(h, id, a[0]), a[1..], b);
    }
  }

  /** Generating first or last makes no difference. */
  lemma {:induction false} FoldMovesText(h: TextHash, id: Id, a: seq<seq<byte>>, t: seq<byte>)
    ensures Fold(h, Generate(h, id, t), a) == Generate(h, Fold(h, id, a), t)
    decreases |a|
  {
    hide Generate;
    if a != [] {
      GenerateSwaps(h, id, t, a[0]);
      FoldMovesText(h, Generate(h, id, a[0]), a[1..], t);
    }
  }

  lemma FoldWithout(h: TextHash, id: Id, texts: seq<seq<byte>>, j: nat)
    requires j < |texts|
    ensures Fold(h, id, texts) == Fold(h, Generate(h, id, texts[j]), texts[..j] + texts[j + 1..])
  {
    hide Generate;
    var a, t, b := texts[..j], texts[j], texts[j + 1..];
    assert texts == a + ([t] + b);
    FoldConcat(h, id, a, [t] + b);
    assert ([t] + b)[1..] == b;
    FoldMovesText(h, id, a, t);
    FoldConcat(h, Generate(h, id, t), a, b);
  }

  lemma TakeOut(s: seq<seq<byte>>, j: nat)
    requires j < |s|
    ensures multiset(s[..j] + s[j + 1..]) == multiset(s) - multiset{s[j]}
  {
    assert s == s[..j] + [s[j]] + s[j + 1..];
  }

  lemma SameFirst(a: seq<seq<byte>>, b: seq<seq<byte>>) returns (j: nat)
    requires multiset(a) == multiset(b) && a != []
    ensures j < |b| && b[j] == a[0] && multiset(a[1..]) == multiset(b[..j] + b[j + 1..])
  {
    TakeFirst(a);
    j := FoundAt(b, a[0]);
    TakeOut(b, j);
  }

  lemma FoundAt(s: seq<seq<byte>>, t: seq<byte>) returns (j: nat)
    requires t in multiset(s)
    ensures j < |s| && s[j] == t
  {
    j :| 0 <= j < |s| && s[j] == t;
  }

  lemma TakeFirst(s: seq<seq<byte>>)
    requires s != []
    ensures s[0] in multiset(s) && multiset(s[1..]) == multiset(s) - multiset{s[0]}
  {
    assert s == [s[0]] + s[1..];
  }

  /** A subject does not depend on the order its texts are folded in. */
  lemma {:induction false} OrderDoesNotMatter(h: TextHash, id: Id, a: seq<seq<byte>>, b: seq<seq<byte>>)
    requires multiset(a) == multiset(b)
    ensures Fold(h, id, a) == Fold(h, id, b)
    decreases |a|
  {
    hide Generate;
    if a == [] {
      assert |multiset(b)| == 0;
    } else {
      var j := SameFirst(a, b);
      FoldWithout(h, id, b, j);
      OrderDoesNotMatter(h, Generate(h, id, a[0]), a[1..], b[..j] + b[j + 1..]);
    }
  }

  /** Folding a text twice takes it out again. */
  lemma EqualPairsCancel(h: TextHash, id: Id, t: seq<byte>, texts: seq<seq<byte>>)
    ensures Fold(h, id, [t, t] + texts) == Fold(h, id, texts)
  {
    hide Xor;
    FoldConcat(h, id, [t, t], texts);
    assert [t, t][1..] == [t] && [t][1..] == [];
    IdXorCancels(h(t), id);
  }

  // ------------------------------------------------------------ known names

  /** The names of the known subjects, the last one for any further number. */
  function Known(i: nat): string {
    match i
    case 0 => "_NP.ACK"
    case 1 => "_NP.HANDSHAKE"
    case 2 => "_NP.JOIN.REQUEST"
    case 3 => "_NP.LEAVE.REQUEST"
    case 4 => "_NP.PING.REQUEST"
    case 5 => "_NP.NODES.PIGGY"
    case 6 => "_NP.NODES.UPDATE"
    case 7 => "_NP.PHEROMONE.UPDATE"
    case 8 => "_NP.MESSAGE.RECEIVER.TOKEN"
    case 9 => "_NP.MESSAGE.SENDER.TOKEN"
    case 10 => "_NP.MESSAGE.AUTHENTICATE"
    case 11 => "_NP.MESSAGE.AUTHENICATION.REPLY"
    case 12 => "_NP.MESSAGE.AUTHORIZE"
    case 13 => "_NP.MESSAGE.AUTHORIZATION.REPLY"
    case 14 => "_NP.MESSAGE.ACCOUNT"
    case _ => "_NP.SYSINFO.DATA"
  }

  const TABLE_SIZE := 16

  function Name(i: nat): seq<byte>
    requires i < TABLE_SIZE
  {
    Ascii(Known(i))
  }

  lemma NamesAreText(i: nat)
    requires i < TABLE_SIZE
    ensures |Name(i)| < 64 && forall j | 0 <= j < |Name(i)| :: Name(i)[j] != 0
  {
    hide Ascii;
  }

  /** Overrun stands for a write behind the end of the caller's buffer. */
  datatype Ret = Ok | InvalidArgument | NotImplemented | Overrun

  /** The first known subject with this id. */
  function Lookup(h: TextHash, subject: Id, from: nat): (r: Option<nat>)
    requires from <= TABLE_SIZE
    ensures r.Some? ==> from <= r.value < TABLE_SIZE && h(Name(r.value)) == subject
    ensures r.Some? ==> forall j | from <= j < r.value :: h(Name(j)) != subject
    ensures r.None? ==> forall j | from <= j < TABLE_SIZE :: h(Name(j)) != subject
    decreases TABLE_SIZE - from
  {
    if from == TABLE_SIZE then None
    else if h(Name(from)) == subject then Some(from)
    else Lookup(h, subject, from + 1)
  }

  /** The static variables of np_regenerate_subject. */
  class SubjectTable {
    var generated: bool
    var table: seq<Id>

    /** The table holds the hashes of the names once it has been generated, and zeroes
        before: generating it a second time would wipe it out. */
    ghost predicate Valid(h: TextHash)
      reads this
    {
      && |table| == TABLE_SIZE
      && forall i | 0 <= i < TABLE_SIZE :: table[i] == if generated then h(Name(i)) else ZERO
    }

    constructor ()
      ensures forall h: TextHash :: Valid(h)
      ensures !generated
    {
      generated, table := false, seq(TABLE_SIZE, i => ZERO);
    }

    /** np_regenerate_subject: the name of the first known subject with this id, padded with
        NULs, else its hexadecimal text with one; the buffer reads back as that text. */
    method Regenerate(h: TextHash, buffer: array?<byte>, subject: Id) returns (ret: Ret)
      requires Valid(h)
      modifies this, buffer
      ensures Valid(h)
      ensures buffer == null ==> ret.InvalidArgument?
      ensures buffer != null ==>
                && (ret.InvalidArgument? <==> buffer.Length < 64)
                && (ret.Overrun? <==> buffer.Length == 64 && Lookup(h, subject, 0).None?)
                && (ret.InvalidArgument? ==> buffer[..] == old(buffer[..]))
                && (ret.Ok? ==> Lookup(h, subject, 0).Some? && Padded(buffer[..], Name(Lookup(h, subject, 0).value)))
                && (ret.NotImplemented? ==>
                      && Lookup(h, subject, 0).None? && FromHex(CText(buffer[..])) == Some(subject)
                      && buffer[2 * ID_SIZE + 1..] == old(buffer[2 * ID_SIZE + 1..]))
    {
      hide Name, FromHex, ToHex, CText;
      if buffer == null || buffer.Length < 64 {
        return InvalidArgument;
      }
      if !generated {
        GenerateTable(h);
      }
      for i := 0 to TABLE_SIZE
        invariant Valid(h) && generated
        invariant Lookup(h, subject, 0) == Lookup(h, subject, i)
      {
        if subject == table[i] {
          NamesAreText(i);
          StringCopy(buffer, Name(i));
          return Ok;
        }
      }
      var fits := IdString(buffer, subject);
      return if fits then NotImplemented else Overrun;
    }

    /** The first call folds every name into its zeroed entry. */
    method GenerateTable(h: TextHash)
      requires Valid(h) && !generated
      modifies this
      ensures Valid(h) && generated
    {
      hide Xor, Name;
      for i := 0 to TABLE_SIZE
        invariant |table| == TABLE_SIZE && !generated
        invariant forall j | 0 <= j < TABLE_SIZE :: table[j] == if j < i then h(Name(j)) else ZERO
      {
        IdXorCancels(h(Name(i)), ZERO);
        table := table[i := Generate(h, table[i], Name(i))];
      }
      generated := true;
    }
  }

  /** The buffer holds the text, NULs behind it, and reads back as the text. */
  ghost predicate Padded(b: seq<byte>, text: seq<byte>) {
    |text| < |b| && b == text + Zeros(|b| - |text|) && CText(b) == text
  }

  /** strncpy of a text over a whole buffer. */
  method StringCopy(buffer: array<byte>, text: seq<byte>)
    requires |text| < buffer.Length && forall j | 0 <= j < |text| :: text[j] != 0
    modifies buffer
    ensures Padded(buffer[..], text)
  {
    for i := 0 to buffer.Length
      invariant forall j | 0 <= j < i :: buffer[j] == if j < |text| then text[j] else 0
    {
      buffer[i] := if i < |text| then text[i] else 0;
    }
    assert buffer[..] == text + Zeros(buffer.Length - |text|);
    TextInFront(text, Zeros(buffer.Length - |text|));
  }

  /** np_id_str: two digits per byte and a NUL, written without asking for the buffer's size. */
  method IdString(buffer: array<byte>, id: Id) returns (fits: bool)
    requires buffer.Length >= 64
    modifies buffer
    ensures fits == (buffer.Length >= 2 * ID_SIZE + 1)
    ensures fits ==> buffer[2 * ID_SIZE + 1..] == old(buffer[2 * ID_SIZE + 1..])
    ensures fits ==> FromHex(CText(buffer[..])) == Some(id)
  {
    hide FromHex, CText;
    var text := ToHex(id) + [0];
    for i := 0 to |text|
      invariant i <= buffer.Length && buffer[..i] == text[..i] && buffer[i..] == old(buffer[i..])
    {
      if i == buffer.Length {
        return false;
      }
      buffer[i] := text[i];
    }
    HexIsText(id);
    HexRoundTrip(id);
    assert buffer[..] == ToHex(id) + ([0] + buffer[|text|..]);
    TextInFront(ToHex(id), [0] + buffer[|text|..]);
    return true;
  }

  /** Distinct hashes of the known names. */
  ghost predicate Distinct(h: TextHash) {
    forall i, j | 0 <= i < j < TABLE_SIZE :: h(Name(i)) != h(Name(j))
  }

  /** The names of one length differ at this letter. */
  function Mark(length: nat): nat {
    if length == 16 then 4 else if length == 24 then 12 else 16
  }

  lemma MarksDiffer(i: nat, j: nat)
    requires i < j < TABLE_SIZE && |Known(i)| == |Known(j)|
    ensures var (x, y, k) := (Known(i), Known(j), Mark(|Known(i)|));
            k < |x| && x[k] != y[k] && 0 < x[k] as int < 128 && 0 < y[k] as int < 128
  {
  }

  /** The sixteen names are sixteen. */
  lemma NamesDiffer(i: nat, j: nat)
    requires i < j < TABLE_SIZE
    ensures Name(i) != Name(j)
  {
    hide Ascii, Known, Mark;
    if |Known(i)| == |Known(j)| {
      MarksDiffer(i, j);
      LettersTell(Known(i), Known(j), Mark(|Known(i)|));
    }
  }

  /** The number of a name. */
  function Index(t: seq<byte>, from: nat): (i: nat)
    requires from <= TABLE_SIZE
    ensures from <= i <= TABLE_SIZE && (i < TABLE_SIZE ==> Name(i) == t)
    ensures forall j | from <= j < i :: Name(j) != t
    decreases TABLE_SIZE - from
  {
    if from == TABLE_SIZE || Name(from) == t then from else Index(t, from + 1)
  }

  /** So there are hashes that tell them apart. */
  lemma HashesCanDiffer() returns (h: TextHash)
    ensures Distinct(h)
  {
    hide Name;
    h := t => [Index(t, 0)] + Zeros(ID_SIZE - 1);
    forall i, j | 0 <= i < j < TABLE_SIZE ensures h(Name(i)) != h(Name(j)) {
      assert Index(Name(i), 0) != Index(Name(j), 0) by { NamesDiffer(i, j); }
      assert h(Name(i))[0] != h(Name(j))[0];
    }
  }

  /** A known subject maps back to its own name. */
  lemma SubjectsMapBack(h: TextHash, subject: Id, i: nat)
    requires Distinct(h) && i < TABLE_SIZE && subject == Generate(h, ZERO, Name(i))
    ensures Lookup(h, subject, 0) == Some(i)
  {
    hide Xor, Name;
    IdXorCancels(h(Name(i)), ZERO);
  }
}
