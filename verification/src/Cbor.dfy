/** CBOR item heads as section 3 of RFC 8949 lays them out: one initial byte with the
    major type and either the argument itself or the width of the argument that follows. */
module Cbor {
  import opened Bytes

  const UNSIGNED := 0
  const NEGATIVE := 1
  const BYTE_STRING := 2
  const TEXT_STRING := 3
  const ARRAY := 4
  const TAG := 6

  datatype HeadItem = HeadItem(major: nat, arg: nat, size: nat)

  /** The number of argument bytes after the initial byte, in the shortest form. */
  function ArgWidth(arg: nat): nat {
    if arg < 24 then 0
    else if arg < 0x100 then 1
    else if arg < 0x1_0000 then 2
    else if arg < 0x1_0000_0000 then 4
    else 8
  }

  function WidthCode(width: nat): nat
    requires width in {1, 2, 4, 8}
  {
    if width == 1 then 24 else if width == 2 then 25 else if width == 4 then 26 else 27
  }

  /** A head in the shortest form; an argument beyond 64 bits keeps its low-order bytes. */
  function Head(major: nat, arg: nat): (s: seq<byte>)
    requires major < 8
    ensures |s| == 1 + ArgWidth(arg)
  {
    if arg < 24 then [major * 32 + arg] else WideHead(major, arg, ArgWidth(arg))
  }

  /** A head whose argument takes exactly `width` bytes, however small it is. */
  function WideHead(major: nat, arg: nat, width: nat): (s: seq<byte>)
    requires major < 8 && width in {1, 2, 4, 8}
    ensures |s| == 1 + width
  {
    [major * 32 + WidthCode(width)] + BigEndian(arg, width)
  }

  /** Reads one head; None when bytes are missing or the width code is reserved or indefinite. */
  function ReadHead(s: seq<byte>): (r: Option<HeadItem>)
    ensures r.Some? ==> 1 <= r.value.size <= |s|
  {
    if s == [] then None
    else
      var major, info := s[0] / 32, s[0] % 32;
      if info < 24 then Some(HeadItem(major, info, 1))
      else if info > 27 then None
      else
        var width := if info == 24 then 1 else if info == 25 then 2 else if info == 26 then 4 else 8;
        if |s| < 1 + width then None
        else Some(HeadItem(major, FromBigEndian(s[1..1 + width]), 1 + width))
  }

  lemma ReadWideHead(major: nat, arg: nat, width: nat, rest: seq<byte>)
    requires major < 8 && width in {1, 2, 4, 8} && arg < Pow256(width)
    ensures ReadHead(WideHead(major, arg, width) + rest) == Some(HeadItem(major, arg, 1 + width))
  {
    var s := WideHead(major, arg, width) + rest;
    assert s[1..1 + width] == BigEndian(arg, width);
    BigEndianRoundTrip(arg, width);
  }

  /** A head is read back whatever follows it. */
  lemma ReadWrittenHead(major: nat, arg: nat, rest: seq<byte>)
    requires major < 8 && arg < 0x1_0000_0000_0000_0000
    ensures ReadHead(Head(major, arg) + rest) == Some(HeadItem(major, arg, 1 + ArgWidth(arg)))
  {
    if arg >= 24 {
      Pow256Values();
      ReadWideHead(major, arg, ArgWidth(arg), rest);
    }
  }
}
