/**
 Strict base64url (RFC 4648 sections 3.5 and 5): no padding, no character
 outside the alphabet, and zero in the unused low bits of the last character.
 */
module Base64Url {
  import opened Base

  type sextet = x: int | 0 <= x < 64

  /** The alphabet in value order: A-Z, a-z, 0-9, "-", "_". */
  function Letter(v: sextet): char {
    if v < 26 then 'A' + v as char
    else if v < 52 then 'a' + (v - 26) as char
    else if v < 62 then '0' + (v - 52) as char
    else if v == 62 then '-' else '_'
  }

  /** The position of c in the alphabet. */
  function Index(c: char): (r: Option<sextet>)
    ensures r.Some? ==> Letter(r.value) == c
  {
    if 'A' <= c <= 'Z' then Some(c as int - 'A' as int)
    else if 'a' <= c <= 'z' then Some(c as int - 'a' as int + 26)
    else if '0' <= c <= '9' then Some(c as int - '0' as int + 52)
    else if c == '-' then Some(62)
    else if c == '_' then Some(63)
    else None
  }

  lemma IndexOfLetter(v: sextet)
    ensures Index(Letter(v)) == Some(v)
  {
  }

  predicate InAlphabet(s: string) { forall i | 0 <= i < |s| :: Index(s[i]).Some? }

  function Sextets(s: string): (q: seq<sextet>)
    requires InAlphabet(s)
    ensures |q| == |s|
  {
    seq(|s|, i requires 0 <= i < |s| => Index(s[i]).value)
  }

  function Letters(q: seq<sextet>): (s: string)
    ensures |s| == |q|
  {
    seq(|q|, i requires 0 <= i < |q| => Letter(q[i]))
  }

  lemma LettersOfSextets(s: string)
    requires InAlphabet(s)
    ensures Letters(Sextets(s)) == s
  {
  }

  lemma SextetsOfLetters(q: seq<sextet>)
    ensures InAlphabet(Letters(q)) && Sextets(Letters(q)) == q
  {
    forall i | 0 <= i < |q| ensures Index(Letters(q)[i]) == Some(q[i]) { IndexOfLetter(q[i]); }
  }

  /** Three bytes to four sextets; one or two last bytes to two or three. */
  function Pack(b: bytes): seq<sextet> {
    if b == [] then []
    else if |b| == 1 then [b[0] / 4, b[0] % 4 * 16]
    else if |b| == 2 then [b[0] / 4, b[0] % 4 * 16 + b[1] / 16, b[1] % 16 * 4]
    else [b[0] / 4, b[0] % 4 * 16 + b[1] / 16, b[1] % 16 * 4 + b[2] / 64, b[2] % 64] + Pack(b[3..])
  }

  /** The library's strict decoder on characters of the alphabet. */
  function Unpack(q: seq<sextet>): Option<bytes> {
    if q == [] then Some([])
    else if |q| == 1 then None
    else if |q| == 2 then
      if q[1] % 16 != 0 then None else Some([First(q)])
    else if |q| == 3 then
      if q[2] % 4 != 0 then None else Some([First(q), Second(q)])
    else match Unpack(q[4..])
      case None => None
      case Some(rest) => Some([First(q), Second(q), Third(q)] + rest)
  }

  function First(q: seq<sextet>): byte requires |q| >= 2 { q[0] as int * 4 + q[1] / 16 }
  function Second(q: seq<sextet>): byte requires |q| >= 3 { q[1] % 16 * 16 + q[2] as int / 4 }
  function Third(q: seq<sextet>): byte requires |q| >= 4 { q[2] % 4 * 64 + q[3] as int }

  function Encode(b: bytes): string { Letters(Pack(b)) }

  function Pow2(n: nat): (p: nat) ensures p > 0 { if n == 0 then 1 else 2 * Pow2(n - 1) }

  /** decodeStrict: exactly n bytes, or an error. The source reads the last character, so n must be positive. */
  function DecodeStrict(s: string, n: nat): Option<bytes>
    requires n > 0
  {
    var want := (n * 8 + 5) / 6;
    if |s| != want then None
    else if !InAlphabet(s) then None
    else
      var q := Sextets(s);
      var unused := |s| * 6 - n * 8;
      if q[|q| - 1] % Pow2(unused) != 0 then None
      else match Unpack(q)
        case None => None
        case Some(b) => if |b| != n then None else Some(b)
  }

  lemma {:induction false} PackLength(b: bytes)
    ensures |Pack(b)| == (|b| * 8 + 5) / 6
  {
    if |b| > 2 { PackLength(b[3..]); }
  }

  lemma {:induction false} UnpackOfPack(b: bytes)
    ensures Unpack(Pack(b)) == Some(b)
  {
    var q := Pack(b);
    if |b| > 2 {
      UnpackOfPack(b[3..]);
      assert q[4..] == Pack(b[3..]);
      assert First(q) == b[0] && Second(q) == b[1] && Third(q) == b[2];
      assert b == [b[0], b[1], b[2]] + b[3..];
    } else if |b| == 2 {
      assert First(q) == b[0] && Second(q) == b[1] && q[2] == b[1] % 16 * 4;
      assert b == [b[0], b[1]];
    } else if |b| == 1 {
      assert First(q) == b[0] && q[1] == b[0] % 4 * 16;
      assert b == [b[0]];
    }
  }

  lemma {:induction false} PackOfUnpack(q: seq<sextet>)
    requires Unpack(q).Some?
    ensures Pack(Unpack(q).value) == q
  {
    if |q| > 3 {
      PackOfUnpack(q[4..]);
      var rest := Unpack(q[4..]).value;
      var b := [First(q), Second(q), Third(q)] + rest;
      assert b[3..] == rest;
      GroupOfBytes(q);
      assert q == [q[0], q[1], q[2], q[3]] + q[4..];
    } else if |q| >= 2 {
      assert q[0] == First(q) / 4 && q[1] / 16 == First(q) % 4;
    }
  }

  lemma GroupOfBytes(q: seq<sextet>)
    requires |q| >= 4
    ensures First(q) / 4 == q[0] && First(q) % 4 * 16 + Second(q) / 16 == q[1]
    ensures Second(q) % 16 * 4 + Third(q) / 64 == q[2] && Third(q) % 64 == q[3]
  {
  }

  /** A packed value leaves the unused low bits of its last sextet zero. */
  lemma {:induction false} PackTrailing(b: bytes)
    requires b != []
    ensures var q := Pack(b);
      var unused := |q| * 6 - |b| * 8;
      q != [] && unused in {0, 2, 4} && q[|q| - 1] % Pow2(unused) == 0
  {
    var q := Pack(b);
    PackLength(b);
    assert Pow2(0) == 1 && Pow2(1) == 2 && Pow2(2) == 4 && Pow2(3) == 8 && Pow2(4) == 16;
    if |b| > 3 {
      PackTrailing(b[3..]);
      PackLength(b[3..]);
      assert q[4..] == Pack(b[3..]);
    }
  }

  /** Each value of n bytes has exactly one accepted string, the encoder's: the decoder is its inverse both ways. */
  lemma DecodeIsInverse(s: string, b: bytes)
    requires b != []
    ensures DecodeStrict(s, |b|) == Some(b) <==> s == Encode(b)
  {
    var q := Pack(b);
    if s == Encode(b) {
      PackLength(b);
      UnpackOfPack(b);
      PackTrailing(b);
      SextetsOfLetters(q);
    }
    if DecodeStrict(s, |b|) == Some(b) {
      PackOfUnpack(Sextets(s));
      LettersOfSextets(s);
    }
  }

  /** The text is the encoding of some value of n bytes. */
  ghost predicate IsEncoding(s: string, n: nat) { exists b: bytes :: |b| == n && Encode(b) == s }

  /** The accepted strings are exactly the encodings of n-byte values. */
  lemma AcceptsExactlyEncodings(s: string, n: nat)
    requires n > 0
    ensures DecodeStrict(s, n).Some? <==> IsEncoding(s, n)
  {
    if DecodeStrict(s, n).Some? {
      DecodeIsInverse(s, DecodeStrict(s, n).value);
    }
    forall b: bytes | |b| == n && Encode(b) == s ensures DecodeStrict(s, n).Some? {
      DecodeIsInverse(s, b);
    }
  }
}
