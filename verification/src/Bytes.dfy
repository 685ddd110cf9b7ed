/** Bytes, big-endian numbers and the small vocabulary the other modules share. */
module Bytes {

  type byte = b: int | 0 <= b < 256

  datatype Option<+T> = None | Some(value: T)

  /** Sizes of include/neuropil.h. */
  const ATTRIBUTES_SIZE := 10240
  const FINGERPRINT_SIZE := 32
  const SIGNATURE_SIZE := 64
  const PUBLIC_KEY_SIZE := 32
  const UUID_SIZE := 16

  function Zeros(n: nat): (s: seq<byte>)
    ensures |s| == n
  {
    seq(n, i => 0)
  }

  /** 256 to the power w: the first number that w bytes cannot hold. */
  function Pow256(w: nat): (r: nat)
    ensures r >= 1
  {
    if w == 0 then 1 else 256 * Pow256(w - 1)
  }

  /** The w low-order bytes of n, most significant first. */
  function BigEndian(n: nat, w: nat): (s: seq<byte>)
    ensures |s| == w
  {
    if w == 0 then [] else BigEndian(n / 256, w - 1) + [n % 256]
  }

  function FromBigEndian(s: seq<byte>): nat {
    if s == [] then 0 else FromBigEndian(s[..|s| - 1]) * 256 + s[|s| - 1]
  }

  lemma {:induction false} BigEndianRoundTrip(n: nat, w: nat)
    requires n < Pow256(w)
    ensures FromBigEndian(BigEndian(n, w)) == n
  {
    if w > 0 {
      BigEndianRoundTrip(n / 256, w - 1);
      assert BigEndian(n, w)[..w - 1] == BigEndian(n / 256, w - 1);
    }
  }

  /** The widths a CBOR head uses. */
  lemma Pow256Values()
    ensures Pow256(1) == 0x100 && Pow256(2) == 0x1_0000 && Pow256(4) == 0x1_0000_0000
    ensures Pow256(8) == 0x1_0000_0000_0000_0000
  {
    assert Pow256(3) == 0x100_0000;
    assert Pow256(5) == 0x100_0000_0000;
    assert Pow256(6) == 0x1_0000_0000_0000;
    assert Pow256(7) == 0x100_0000_0000_0000;
  }

  /** Overwrites the bytes of b from position `at` on with s. */
  function Splice(b: seq<byte>, at: nat, s: seq<byte>): (r: seq<byte>)
    requires at + |s| <= |b|
    ensures |r| == |b|
  {
    b[..at] + s + b[at + |s|..]
  }

  lemma SpliceKeepsTail(b: seq<byte>, at: nat, s: seq<byte>, lo: nat)
    requires at + |s| <= lo <= |b|
    ensures Splice(b, at, s)[lo..] == b[lo..]
  {
  }

  lemma SpliceKeepsFront(b: seq<byte>, at: nat, s: seq<byte>, lo: nat, hi: nat)
    requires lo <= hi <= at && at + |s| <= |b|
    ensures Splice(b, at, s)[lo..hi] == b[lo..hi]
  {
  }

  /** Two pieces written back to back, the second one first. */
  lemma SpliceTwo(b: seq<byte>, lo: nat, at: nat, x: seq<byte>, y: seq<byte>)
    requires lo <= at && at + |x| + |y| <= |b|
    ensures Splice(Splice(b, at + |x|, y), at, x) == Splice(b, at, x + y)
    ensures Splice(b, at, x + y)[lo..at + |x| + |y|] == b[lo..at] + (x + y)
  {
  }

  lemma SliceParts(b: seq<byte>, lo: nat, hi: nat, x: seq<byte>, y: seq<byte>)
    requires lo <= hi <= |b| && b[lo..hi] == x + y
    ensures hi == lo + |x| + |y|
    ensures b[lo..lo + |x|] == x && b[lo + |x|..hi] == y
  {
    assert |b[lo..hi]| == |x| + |y|;
    assert b[lo..lo + |x|] == b[lo..hi][..|x|];
    assert b[lo + |x|..hi] == b[lo..hi][|x|..];
  }

  lemma SliceJoin(b: seq<byte>, lo: nat, mid: nat, hi: nat)
    requires lo <= mid <= hi <= |b|
    ensures b[lo..hi] == b[lo..mid] + b[mid..hi]
  {
  }

  // --------------------------------------------------------------- C strings

  /** A C string: up to the first NUL. */
  function CText(s: seq<byte>): seq<byte> {
    if s == [] || s[0] == 0 then [] else [s[0]] + CText(s[1..])
  }

  lemma {:induction false} TextWithoutNul(s: seq<byte>)
    requires forall i | 0 <= i < |s| :: s[i] != 0
    ensures CText(s) == s
  {
    if s != [] { TextWithoutNul(s[1..]); }
  }

  lemma {:induction false} TextInFront(s: seq<byte>, rest: seq<byte>)
    requires (forall i | 0 <= i < |s| :: s[i] != 0) && rest != [] && rest[0] == 0
    ensures CText(s + rest) == s
  {
    if s == [] {
      assert s + rest == rest;
    } else {
      TextInFront(s[1..], rest);
      assert (s + rest)[1..] == s[1..] + rest;
    }
  }

  /** The bytes of a string literal. There is no NUL inside one, nor anything but ASCII in
      these: other characters become question marks. */
  function Ascii(s: string): (t: seq<byte>)
    ensures |t| == |s| && forall i | 0 <= i < |t| :: t[i] != 0
  {
    seq(|s|, i requires 0 <= i < |s| => if 0 < s[i] as int < 128 then s[i] as int else 63)
  }

  /** Different letters at one place make different bytes. */
  lemma LettersTell(x: string, y: string, i: nat)
    requires i < |x| && i < |y| && x[i] != y[i] && 0 < x[i] as int < 128 && 0 < y[i] as int < 128
    ensures Ascii(x) != Ascii(y)
  {
    assert Ascii(x)[i] == x[i] as int && Ascii(y)[i] == y[i] as int;
  }

  // ------------------------------------------------ pieces laid back to back

  function Flatten(pieces: seq<seq<byte>>): seq<byte> {
    if pieces == [] then [] else pieces[0] + Flatten(pieces[1..])
  }

  lemma {:induction false} FlattenConcat(a: seq<seq<byte>>, b: seq<seq<byte>>)
    ensures Flatten(a + b) == Flatten(a) + Flatten(b)
  {
    if a == [] {
      assert a + b == b;
    } else {
      FlattenConcat(a[1..], b);
      assert (a + b)[1..] == a[1..] + b;
      assert a[0] + (Flatten(a[1..]) + Flatten(b)) == (a[0] + Flatten(a[1..])) + Flatten(b);
    }
  }

  lemma FlattenOne(piece: seq<byte>)
    ensures Flatten([piece]) == piece
  {
    assert Flatten([piece]) == piece + Flatten([]);
  }

  lemma FlattenCut(pieces: seq<seq<byte>>, i: nat)
    requires i <= |pieces|
    ensures Flatten(pieces) == Flatten(pieces[..i]) + Flatten(pieces[i..])
  {
    assert pieces == pieces[..i] + pieces[i..];
    FlattenConcat(pieces[..i], pieces[i..]);
  }

  lemma FlattenNext(pieces: seq<seq<byte>>, i: nat)
    requires i < |pieces|
    ensures Flatten(pieces[..i + 1]) == Flatten(pieces[..i]) + pieces[i]
  {
    assert pieces[..i + 1] == pieces[..i] + [pieces[i]];
    FlattenOne(pieces[i]);
    FlattenConcat(pieces[..i], [pieces[i]]);
  }
}
