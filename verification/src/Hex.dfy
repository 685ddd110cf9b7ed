/** Lower-case hexadecimal text, as np_id_str writes and np_str_id reads it. */
module Hex {
  import opened Bytes

  function Digit(n: nat): byte
    requires n < 16
  {
    if n < 10 then 48 + n else 87 + n
  }

  /** The value of a hexadecimal digit of either case. */
  function DigitValue(c: byte): Option<nat> {
    if 48 <= c < 58 then Some(c - 48)
    else if 97 <= c < 103 then Some(c - 87)
    else if 65 <= c < 71 then Some(c - 55)
    else None
  }

  function ToHex(b: seq<byte>): (t: seq<byte>)
    ensures |t| == 2 * |b|
  {
    if b == [] then [] else [Digit(b[0] / 16), Digit(b[0] % 16)] + ToHex(b[1..])
  }

  function FromHex(t: seq<byte>): Option<seq<byte>> {
    if t == [] then Some([])
    else if |t| == 1 then None
    else
      match (DigitValue(t[0]), DigitValue(t[1]), FromHex(t[2..]))
      case (Some(hi), Some(lo), Some(rest)) => Some([hi * 16 + lo] + rest)
      case _ => None
  }

  lemma DigitRoundTrip(n: nat)
    requires n < 16
    ensures DigitValue(Digit(n)) == Some(n)
  {
  }

  lemma {:induction false} HexRoundTrip(b: seq<byte>)
    ensures FromHex(ToHex(b)) == Some(b)
  {
    if b != [] {
      HexRoundTrip(b[1..]);
      assert ToHex(b)[2..] == ToHex(b[1..]);
      DigitRoundTrip(b[0] / 16);
      DigitRoundTrip(b[0] % 16);
      assert b == [b[0] / 16 * 16 + b[0] % 16] + b[1..];
    }
  }

  /** What is written are digits and lower-case letters. */
  lemma {:induction false} HexIsText(b: seq<byte>)
    ensures forall i | 0 <= i < |ToHex(b)| :: 48 <= ToHex(b)[i] < 58 || 97 <= ToHex(b)[i] < 103
  {
    if b != [] {
      HexIsText(b[1..]);
    }
  }

  predicate IsHexDigit(c: byte) {
    48 <= c < 58 || 97 <= c < 103 || 65 <= c < 71
  }

  /** What is read are digits and letters of either case, in pairs. */
  lemma {:induction false} HexReadsIff(t: seq<byte>)
    ensures FromHex(t).Some? <==> |t| % 2 == 0 && forall i | 0 <= i < |t| :: IsHexDigit(t[i])
  {
    if |t| >= 2 {
      HexReadsIff(t[2..]);
      assert forall i | 2 <= i < |t| :: t[i] == t[2..][i - 2];
      if FromHex(t[2..]).Some? && IsHexDigit(t[0]) && IsHexDigit(t[1]) {
        forall i | 0 <= i < |t| ensures IsHexDigit(t[i]) {
          if i >= 2 { assert t[i] == t[2..][i - 2]; }
        }
      } else if |t| % 2 == 0 && forall i | 0 <= i < |t| :: IsHexDigit(t[i]) {
        assert forall i | 0 <= i < |t[2..]| :: IsHexDigit(t[2..][i]);
      }
    }
  }
}
