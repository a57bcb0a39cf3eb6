/**
 UTF-8 as the Go library reads and writes it. A Go string is any byte
 sequence; `Runes` is what ranging over it yields (U+FFFD for each byte that
 does not decode), `Valid` is utf8.ValidString, and `Encode` is what writing
 the runes back produces.
 */
module Utf8 {
  import opened Base

  const REPLACEMENT: char := '\U{FFFD}'

  predicate Continuation(x: byte) { 0x80 <= x < 0xC0 }

  function EncodeChar(c: char): (r: bytes)
    ensures 1 <= |r| <= 4
  {
    var v := c as int;
    if v < 0x80 then [v]
    else if v < 0x800 then [0xC0 + v / 64, 0x80 + v % 64]
    else if v < 0x10000 then [0xE0 + v / 64 / 64, 0x80 + v / 64 % 64, 0x80 + v % 64]
    else [0xF0 + v / 64 / 64 / 64, 0x80 + v / 64 / 64 % 64, 0x80 + v / 64 % 64, 0x80 + v % 64]
  }

  /** The least and greatest second byte a lead byte admits (no overlong form, no surrogate, nothing past U+10FFFF). */
  predicate SecondByte(lead: byte, x: byte) {
    if lead == 0xE0 then 0xA0 <= x < 0xC0
    else if lead == 0xED then 0x80 <= x < 0xA0
    else if lead == 0xF0 then 0x90 <= x < 0xC0
    else if lead == 0xF4 then 0x80 <= x < 0x90
    else Continuation(x)
  }

  datatype Decoded = Invalid | Decoded(c: char, width: nat)

  /** utf8.DecodeRune on a non-empty slice. */
  function DecodeFirst(b: bytes): (r: Decoded)
    requires b != []
    ensures r.Decoded? ==> 1 <= r.width <= 4 && r.width <= |b|
  {
    var x: int := b[0];
    if x < 0x80 then Decoded(x as char, 1)
    else if 0xC2 <= x < 0xE0 && |b| >= 2 && Continuation(b[1]) then
      Decoded(Push(x - 0xC0, b[1]) as char, 2)
    else if 0xE0 <= x < 0xF0 && |b| >= 3 && SecondByte(x, b[1]) && Continuation(b[2]) then
      Decoded(Push(Push(x - 0xE0, b[1]), b[2]) as char, 3)
    else if 0xF0 <= x < 0xF5 && |b| >= 4 && SecondByte(x, b[1]) && Continuation(b[2]) && Continuation(b[3]) then
      Decoded(Push(Push(Push(x - 0xF0, b[1]), b[2]), b[3]) as char, 4)
    else Invalid
  }

  /** Shift in the six payload bits of a continuation byte. */
  function Push(acc: int, x: byte): int { acc * 64 + (x - 0x80) }

  lemma PushPop(acc: int, x: byte)
    requires Continuation(x)
    ensures Push(acc, x) / 64 == acc && 0x80 + Push(acc, x) % 64 == x
  {
  }

  lemma PopPush(v: int)
    ensures Push(v / 64, 0x80 + v % 64) == v
  {
  }

  function Encode(s: string): bytes {
    if s == [] then [] else EncodeChar(s[0]) + Encode(s[1..])
  }

  function Runes(b: bytes): string {
    if b == [] then ""
    else match DecodeFirst(b)
      case Invalid => [REPLACEMENT] + Runes(b[1..])
      case Decoded(c, n) => [c] + Runes(b[n..])
  }

  predicate Valid(b: bytes) {
    b == [] || (DecodeFirst(b).Decoded? && Valid(b[DecodeFirst(b).width..]))
  }

  lemma DecodeOfEncodeChar(c: char, rest: bytes)
    ensures DecodeFirst(EncodeChar(c) + rest) == Decoded(c, |EncodeChar(c)|)
  {
    var v := c as int;
    PopPush(v);
    PopPush(v / 64);
    PopPush(v / 64 / 64);
  }

  lemma EncodeOfDecodeFirst(b: bytes)
    requires b != [] && DecodeFirst(b).Decoded?
    ensures EncodeChar(DecodeFirst(b).c) == b[..DecodeFirst(b).width]
  {
    var n := DecodeFirst(b).width;
    if n >= 2 {
      var lead: int := b[0] - (if n == 2 then 0xC0 else if n == 3 then 0xE0 else 0xF0);
      PushPop(lead, b[1]);
      if n >= 3 { PushPop(Push(lead, b[1]), b[2]); }
      if n >= 4 { PushPop(Push(Push(lead, b[1]), b[2]), b[3]); }
    }
  }

  lemma {:induction false} EncodeConcat(s: string, t: string)
    ensures Encode(s + t) == Encode(s) + Encode(t)
  {
    hide EncodeChar;
    if s == [] {
      assert s + t == t;
    } else {
      EncodeConcat(s[1..], t);
      assert (s + t)[1..] == s[1..] + t;
    }
  }

  /** Decoding what was encoded gives the string back, and what was encoded is valid. */
  lemma {:induction false} RunesOfEncode(s: string)
    ensures Valid(Encode(s)) && Runes(Encode(s)) == s
  {
    hide EncodeChar, DecodeFirst;
    if s != [] {
      var e := EncodeChar(s[0]);
      DecodeOfEncodeChar(s[0], Encode(s[1..]));
      assert Encode(s)[|e|..] == Encode(s[1..]);
      RunesOfEncode(s[1..]);
    }
  }

  /** A valid byte string is exactly the encoding of its runes, so distinct valid strings have distinct runes. */
  lemma {:induction false} EncodeOfRunes(b: bytes)
    requires Valid(b)
    ensures Encode(Runes(b)) == b
  {
    hide EncodeChar, DecodeFirst;
    if b != [] {
      EncodeOfDecodeFirst(b);
      var n := DecodeFirst(b).width;
      EncodeOfRunes(b[n..]);
      assert b == b[..n] + b[n..];
    }
  }

  lemma RunesInjective(a: bytes, b: bytes)
    requires Valid(a) && Valid(b) && Runes(a) == Runes(b)
    ensures a == b
  {
    EncodeOfRunes(a);
    EncodeOfRunes(b);
  }
}
