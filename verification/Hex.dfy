/** Lowercase hexadecimal, as hashes are stored. */
module Hex {
  import opened Base
  import opened Json
  import opened Canonical

  function Encode(b: bytes): (s: string)
    ensures |s| == 2 * |b|
  {
    if b == [] then "" else [HexDigit(b[0] / 16), HexDigit(b[0] % 16)] + Encode(b[1..])
  }

  /** hex.DecodeString, which takes digits of either case. */
  function Decode(s: string): (r: Option<bytes>)
    ensures r.Some? ==> |s| == 2 * |r.value|
  {
    if s == "" then Some([])
    else if |s| == 1 then None
    else match (HexVal(s[0]), HexVal(s[1]), Decode(s[2..]))
      case (Some(hi), Some(lo), Some(rest)) => Some([hi * 16 + lo] + rest)
      case _ => None
  }

  /** decodeHash: 32 bytes in the one stored spelling. */
  function DecodeHash(s: string): Option<bytes> {
    match Decode(s)
    case None => None
    case Some(b) => if |b| == 32 && Encode(b) == s then Some(b) else None
  }

  lemma DigitRoundTrip(n: int)
    requires 0 <= n < 16
    ensures HexVal(HexDigit(n)) == Some(n)
  {
    if n < 8 { assert n == 0 || n == 1 || n == 2 || n == 3 || n == 4 || n == 5 || n == 6 || n == 7; }
    else { assert n == 8 || n == 9 || n == 10 || n == 11 || n == 12 || n == 13 || n == 14 || n == 15; }
  }

  lemma DecodePair(hi: int, lo: int, s: string)
    requires Decode(s).Some? && 0 <= hi < 16 && 0 <= lo < 16
    ensures Decode([HexDigit(hi), HexDigit(lo)] + s) == Some([hi * 16 + lo] + Decode(s).value)
  {
    DigitRoundTrip(hi);
    DigitRoundTrip(lo);
    hide HexVal, HexDigit;
    var t := [HexDigit(hi), HexDigit(lo)] + s;
    assert t[2..] == s && t[0] == HexDigit(hi) && t[1] == HexDigit(lo);
  }

  lemma {:induction false} DecodeOfEncode(b: bytes)
    ensures Decode(Encode(b)) == Some(b)
  {
    if b != [] {
      hide Decode, HexDigit, HexVal;
      var hi, lo := b[0] / 16, b[0] % 16;
      DecodeOfEncode(b[1..]);
      DecodePair(hi, lo, Encode(b[1..]));
      assert b == [hi * 16 + lo] + b[1..];
    }
  }

  lemma EncodeInjective(a: bytes, b: bytes)
    requires Encode(a) == Encode(b)
    ensures a == b
  {
    DecodeOfEncode(a);
    DecodeOfEncode(b);
  }

  /** A stored hash decodes to 32 bytes exactly when it is their lowercase spelling. */
  lemma DecodeHashExact(s: string, b: bytes)
    ensures DecodeHash(s) == Some(b) <==> |b| == 32 && s == Encode(b)
  {
    DecodeOfEncode(b);
  }
}
