/**
 Strict reading and canonical writing of whole documents, on bytes
 (ParseStrict and CanonicalValue).
 */
module Documents {
  import opened Base
  import opened Json
  import opened Canonical
  import opened Surrogates
  import CanonicalReader
  import CanonicalSize
  import Utf8

  /** Valid UTF-8, no surrogate escape outside a pair, then one JSON document without repeated keys. */
  function ParseStrict(data: bytes): Option<Value> {
    if !Utf8.Valid(data) || !Scan(data, false) then None else ParseDocument(Utf8.Runes(data))
  }

  ghost function CanonicalBytes(v: Value): Option<bytes> {
    if Accepted(v) then Some(Utf8.Encode(Text(v))) else None
  }

  // ---- The scanner passes every canonical text ----

  lemma {:induction false} AsciiEncode(s: string)
    requires forall i | 0 <= i < |s| :: s[i] as int < 0x80
    ensures |Utf8.Encode(s)| == |s| && forall i | 0 <= i < |s| :: Utf8.Encode(s)[i] == s[i] as int
  {
    if s != "" { AsciiEncode(s[1..]); }
  }

  /** Scanning over t, outside any string, leaves the scanner outside and changes nothing. */
  ghost predicate PassedOver(t: string) {
    forall rest: bytes :: Scan(Utf8.Encode(t) + rest, false) == Scan(rest, false)
  }

  lemma PassedConcat(a: string, b: string)
    requires PassedOver(a) && PassedOver(b)
    ensures PassedOver(a + b)
  {
    hide Scan;
    Utf8.EncodeConcat(a, b);
    forall rest: bytes ensures Scan(Utf8.Encode(a + b) + rest, false) == Scan(rest, false) {
      assert Utf8.Encode(a + b) + rest == Utf8.Encode(a) + (Utf8.Encode(b) + rest);
    }
  }

  lemma {:induction false} PassedPlain(s: string)
    requires forall i | 0 <= i < |s| :: s[i] as int < 0x80 && s[i] != '"'
    ensures PassedOver(s)
  {
    if s == "" {
      forall rest: bytes ensures Scan(Utf8.Encode(s) + rest, false) == Scan(rest, false) {
        assert Utf8.Encode(s) + rest == rest;
      }
    } else {
      PassedPlain(s[1..]);
      var c := [s[0]];
      assert s == c + s[1..];
      assert PassedOver(c) by {
        AsciiEncode(c);
        forall rest: bytes ensures Scan(Utf8.Encode(c) + rest, false) == Scan(rest, false) {
          assert (Utf8.Encode(c) + rest)[1..] == rest;
        }
      }
      PassedConcat(c, s[1..]);
    }
  }

  lemma SkipHighBytes(d: bytes, n: nat)
    requires n <= |d| && forall i | 0 <= i < n :: d[i] >= 0x80
    ensures Scan(d, true) == Scan(d[n..], true)
  {
    if n == 0 {
      assert d[0..] == d;
    } else {
      SkipHighBytes(d[1..], n - 1);
      assert d[1..][n - 1..] == d[n..];
    }
  }

  lemma ScanEscaped(c: char, rest: bytes)
    ensures Scan(Utf8.Encode(Escaped(c)) + rest, true) == Scan(rest, true)
  {
    var e := Escaped(c);
    if c as int >= 0x80 {
      assert e[1..] == "";
      var b := Utf8.EncodeChar(c);
      assert Utf8.Encode(e) == b;
      SkipHighBytes(b + rest, |b|);
      assert (b + rest)[|b|..] == rest;
    } else {
      ScanEscapedAscii(c, rest);
    }
  }

  lemma ScanEscapedAscii(c: char, rest: bytes)
    requires c as int < 0x80
    ensures Scan(Utf8.Encode(Escaped(c)) + rest, true) == Scan(rest, true)
  {
    hide Scan;
    var e := Escaped(c);
    AsciiEncode(e);
    var d := Utf8.Encode(e) + rest;
    assert d[|e|..] == rest;
    if |e| == 1 {
      ScanPlainByte(d);
    } else if |e| == 2 {
      ScanShortEscape(d);
    } else {
      ControlHex(c, d[2..]);
      ScanUnicodeEscape(d, c as int);
    }
  }

  lemma ScanPlainByte(d: bytes)
    requires d != [] && d[0] != QUOTE && d[0] != BACKSLASH
    ensures Scan(d, true) == Scan(d[1..], true)
  {
  }

  lemma ScanShortEscape(d: bytes)
    requires |d| >= 2 && d[0] == BACKSLASH && d[1] != LETTER_U
    ensures Scan(d, true) == Scan(d[2..], true)
  {
  }

  lemma ScanUnicodeEscape(d: bytes, v: int)
    requires |d| >= 6 && d[0] == BACKSLASH && d[1] == LETTER_U && HexValue(d[2..]) == Some(v) && !IsHigh(v) && !IsLow(v)
    ensures Scan(d, true) == Scan(d[6..], true)
  {
  }

  lemma ScanOpenQuote(x: bytes)
    ensures Scan([QUOTE] + x, false) == Scan(x, true)
  {
    assert ([QUOTE] + x)[1..] == x;
  }

  lemma ControlHex(c: char, d: bytes)
    requires c < ' ' && |d| >= 4
    requires d[0] == 0x30 && d[1] == 0x30
    requires d[2] == HexDigit(c as int / 16) as int && d[3] == HexDigit(c as int % 16) as int
    ensures HexValue(d) == Some(c as int)
  {
    assert HexByte(d[2]) == Some(c as int / 16);
    assert HexByte(d[3]) == Some(c as int % 16);
  }

  lemma {:induction false} ScanEscapedAll(s: string, rest: bytes)
    ensures Scan(Utf8.Encode(EscapedAll(s)) + ([QUOTE] + rest), true) == Scan(rest, false)
  {
    hide Escaped;
    var x := Utf8.Encode(EscapedAll(s)) + ([QUOTE] + rest);
    if s == "" {
      assert x[1..] == rest;
    } else {
      Utf8.EncodeConcat(Escaped(s[0]), EscapedAll(s[1..]));
      assert x == Utf8.Encode(Escaped(s[0])) + (Utf8.Encode(EscapedAll(s[1..])) + ([QUOTE] + rest));
      ScanEscaped(s[0], Utf8.Encode(EscapedAll(s[1..])) + ([QUOTE] + rest));
      ScanEscapedAll(s[1..], rest);
    }
  }

  lemma PassedQuoted(s: string)
    ensures PassedOver(Quoted(s))
  {
    hide EscapedAll, Scan, Utf8.Encode;
    Utf8.EncodeConcat("\"" + EscapedAll(s), "\"");
    Utf8.EncodeConcat("\"", EscapedAll(s));
    AsciiEncode("\"");
    assert Utf8.Encode("\"") == [QUOTE];
    forall rest: bytes ensures Scan(Utf8.Encode(Quoted(s)) + rest, false) == Scan(rest, false) {
      var x := Utf8.Encode(Quoted(s)) + rest;
      assert x == [QUOTE] + (Utf8.Encode(EscapedAll(s)) + ([QUOTE] + rest));
      ScanOpenQuote(Utf8.Encode(EscapedAll(s)) + ([QUOTE] + rest));
      ScanEscapedAll(s, rest);
    }
  }

  lemma {:induction false} PassedText(v: Value)
    requires Accepted(v)
    ensures PassedOver(Text(v))
    decreases v, 1, 0
  {
    hide PassedOver, Quoted;
    match v {
      case Null => PassedPlain("null");
      case Bool(b) => PassedPlain(if b then "true" else "false");
      case Num(lit) => PassedPlain(lit);
      case Str(s) => PassedQuoted(s);
      case Arr(a) =>
        PassedElements(v, 0);
        PassedPlain("[");
        PassedPlain("]");
        PassedConcat("[", ElementsText(v, 0));
        PassedConcat("[" + ElementsText(v, 0), "]");
      case Obj(m) =>
        var ks := Ascending(m.Keys);
        PassedMembers(v, ks, 0);
        PassedPlain("{");
        PassedPlain("}");
        PassedConcat("{", MembersText(v, ks, 0));
        PassedConcat("{" + MembersText(v, ks, 0), "}");
    }
  }

  lemma {:induction false} PassedElements(v: Value, i: nat)
    requires v.Arr? && i <= |v.a| && Accepted(v)
    ensures PassedOver(ElementsText(v, i))
    decreases v, 0, |v.a| - i
  {
    hide PassedOver, Text;
    if i == |v.a| {
      PassedPlain("");
    } else {
      var sep := if i > 0 then "," else "";
      PassedPlain(sep);
      PassedText(v.a[i]);
      PassedElements(v, i + 1);
      PassedConcat(sep, Text(v.a[i]));
      PassedConcat(sep + Text(v.a[i]), ElementsText(v, i + 1));
    }
  }

  lemma {:induction false} PassedMembers(v: Value, ks: seq<string>, i: nat)
    requires v.Obj? && i <= |ks| && Accepted(v) && forall k | k in ks :: k in v.m
    ensures PassedOver(MembersText(v, ks, i))
    decreases v, 0, |ks| - i
  {
    hide PassedOver, Text, Quoted;
    if i == |ks| {
      PassedPlain("");
    } else {
      var sep := if i > 0 then "," else "";
      var k := ks[i];
      assert k in ks;
      PassedPlain(sep);
      PassedQuoted(k);
      PassedPlain(":");
      PassedText(v.m[k]);
      PassedMembers(v, ks, i + 1);
      PassedConcat(sep, Quoted(k));
      PassedConcat(sep + Quoted(k), ":");
      PassedConcat(sep + Quoted(k) + ":", Text(v.m[k]));
      PassedConcat(sep + Quoted(k) + ":" + Text(v.m[k]), MembersText(v, ks, i + 1));
    }
  }

  // ---- Whole documents ----

  /** The strict parse of a value's canonical bytes is that value. */
  lemma StrictRoundTrip(v: Value)
    requires Accepted(v)
    ensures ParseStrict(Utf8.Encode(Text(v))) == Some(v)
  {
    hide Text, ParseDocument, Scan;
    var data := Utf8.Encode(Text(v));
    Utf8.RunesOfEncode(Text(v));
    PassedText(v);
    assert data + [] == data;
    assert Scan([], false) by { ScanNothing(); }
    CanonicalReader.RoundTrip(v);
  }

  lemma ScanNothing()
    ensures Scan([], false)
  {
  }

  /** Canonical bytes determine the value. */
  lemma CanonicalBytesInjective(v: Value, w: Value)
    requires CanonicalBytes(v).Some? && CanonicalBytes(v) == CanonicalBytes(w)
    ensures v == w
  {
    StrictRoundTrip(v);
    StrictRoundTrip(w);
  }

  /** The canonical form of a document is never longer than the document. */
  lemma NeverLonger(data: bytes)
    requires ParseStrict(data).Some?
    ensures |Utf8.Encode(Text(ParseStrict(data).value))| <= |data|
  {
    hide Text, ParseValue;
    var s := Utf8.Runes(data);
    Utf8.EncodeOfRunes(data);
    CanonicalSize.SizeIsEncoded(s);
    CanonicalSize.ValueShrinks(s);
    CanonicalSize.SizeIsEncoded(Text(ParseStrict(data).value));
  }

  /** Canonicalising twice is canonicalising once. */
  lemma CanonicalIdempotent(data: bytes)
    requires ParseStrict(data).Some? && CanonicalBytes(ParseStrict(data).value).Some?
    ensures var c := CanonicalBytes(ParseStrict(data).value).value;
      ParseStrict(c) == ParseStrict(data) && |c| <= |data|
  {
    StrictRoundTrip(ParseStrict(data).value);
    NeverLonger(data);
  }
}
