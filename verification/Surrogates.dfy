/**
 The byte scanner that refuses surrogate escapes outside a high-low pair.
 `Scan` follows checkSurrogates byte by byte; `AllPaired` is the plain
 reading of RFC 8259 section 7: decode every string literal unit by unit and
 look at neighbouring escapes. The two agree on every text whose escapes are
 well formed; on others the JSON reader refuses the text anyway.
 */
module Surrogates {
  import opened Base
  import opened Json

  const QUOTE: byte := 0x22
  const BACKSLASH: byte := 0x5C
  const LETTER_U: byte := 0x75

  function HexByte(x: byte): (r: Option<int>)
    ensures r.Some? ==> 0 <= r.value < 16
  {
    if 0x30 <= x <= 0x39 then Some(x as int - 0x30)
    else if 0x61 <= x <= 0x66 then Some(x as int - 0x61 + 10)
    else if 0x41 <= x <= 0x46 then Some(x as int - 0x41 + 10)
    else None
  }

  /** The value of the four hex digits d starts with. */
  function HexValue(d: bytes): (r: Option<int>)
    ensures r.Some? ==> 0 <= r.value < 0x10000 && |d| >= 4
  {
    if |d| < 4 then None
    else match (HexByte(d[0]), HexByte(d[1]), HexByte(d[2]), HexByte(d[3]))
      case (Some(a), Some(b), Some(c), Some(e)) => Some(((a * 16 + b) * 16 + c) * 16 + e)
      case _ => None
  }

  /** Does the scan of d accept, starting inside or outside a string? */
  predicate Scan(d: bytes, inString: bool) {
    if d == [] then true
    else if !inString then Scan(d[1..], d[0] == QUOTE)
    else if d[0] == QUOTE then Scan(d[1..], false)
    else if d[0] != BACKSLASH then Scan(d[1..], true)
    else if |d| < 2 then true
    else if d[1] != LETTER_U then Scan(d[2..], true)
    else match HexValue(d[2..])
      case None => true
      case Some(v) =>
        if IsLow(v) then false
        else if IsHigh(v) then
          && |d| >= 8 && d[6] == BACKSLASH && d[7] == LETTER_U
          && HexValue(d[8..]).Some? && IsLow(HexValue(d[8..]).value)
          && Scan(d[12..], true)
        else Scan(d[6..], true)
  }

  /** hex4: four digits of either case at data[at..]. */
  method Hex4At(data: bytes, at: nat) returns (v: int, ok: bool)
    ensures ok <==> at + 4 <= |data| && HexValue(data[at..]).Some?
    ensures ok ==> v == HexValue(data[at..]).value
  {
    if at + 4 > |data| { return 0, false; }
    v := 0;
    ghost var d := data[at..];
    var i := 0;
    while i < 4
      invariant 0 <= i <= 4
      invariant forall j | 0 <= j < i :: HexByte(d[j]).Some?
      invariant i == 0 ==> v == 0
      invariant i == 1 ==> v == HexByte(d[0]).value
      invariant i == 2 ==> v == HexByte(d[0]).value * 16 + HexByte(d[1]).value
      invariant i == 3 ==> v == (HexByte(d[0]).value * 16 + HexByte(d[1]).value) * 16 + HexByte(d[2]).value
      invariant i == 4 ==> HexValue(d) == Some(v)
    {
      var x := data[at + i];
      assert x == d[i];
      if 0x30 <= x <= 0x39 { v := v * 16 + (x as int - 0x30); }
      else if 0x61 <= x <= 0x66 { v := v * 16 + (x as int - 0x61 + 10); }
      else if 0x41 <= x <= 0x46 { v := v * 16 + (x as int - 0x41 + 10); }
      else { return 0, false; }
      i := i + 1;
    }
    return v, true;
  }

  /** checkSurrogates: one pass that jumps over escapes. */
  method CheckSurrogates(data: bytes) returns (ok: bool)
    ensures ok == Scan(data, false)
  {
    var inString := false;
    var i := 0;
    while i < |data|
      invariant 0 <= i <= |data|
      invariant Scan(data, false) == Scan(data[i..], inString)
    {
      ghost var d := data[i..];
      var c := data[i];
      assert d[1..] == data[i + 1..];
      if !inString {
        if c == QUOTE { inString := true; }
        i := i + 1;
      } else if c == QUOTE {
        inString := false;
        i := i + 1;
      } else if c != BACKSLASH {
        i := i + 1;
      } else if i + 1 >= |data| {
        return true;
      } else if data[i + 1] != LETTER_U {
        assert d[2..] == data[i + 2..];
        i := i + 2;
      } else {
        assert d[2..] == data[i + 2..];
        var v, hex := Hex4At(data, i + 2);
        if !hex { return true; }
        if 0xDC00 <= v <= 0xDFFF { return false; }
        if 0xD800 <= v <= 0xDBFF {
          if i + 7 >= |data| || data[i + 6] != BACKSLASH || data[i + 7] != LETTER_U { return false; }
          assert d[8..] == data[i + 8..];
          var lo, lok := Hex4At(data, i + 8);
          if !lok || lo < 0xDC00 || lo > 0xDFFF { return false; }
          assert d[12..] == data[i + 12..];
          i := i + 12;
        } else {
          assert d[6..] == data[i + 6..];
          i := i + 6;
        }
      }
    }
    return true;
  }

  // ---- The plain reading ----

  /** One unit of a string literal: a \u escape with its value, or anything else. */
  datatype Unit = Plain | Escape(v: int)

  /** Inside a string: is d[0..] a \u escape with four hex digits? */
  predicate UnicodeEscape(d: bytes) {
    |d| >= 2 && d[0] == BACKSLASH && d[1] == LETTER_U && HexValue(d[2..]).Some?
  }

  /** The bytes the first unit takes (d is inside a string and not at its closing quote). */
  function UnitLength(d: bytes): (n: nat)
    requires d != []
    ensures 0 < n <= |d|
  {
    if d[0] != BACKSLASH || |d| == 1 then 1 else if UnicodeEscape(d) then 6 else 2
  }

  function LiteralUnits(d: bytes): seq<Unit> {
    if d == [] || d[0] == QUOTE then []
    else
      [if UnicodeEscape(d) then Escape(HexValue(d[2..]).value) else Plain] + LiteralUnits(d[UnitLength(d)..])
  }

  function AfterLiteral(d: bytes): (r: bytes)
    ensures |r| <= |d|
  {
    if d == [] then [] else if d[0] == QUOTE then d[1..] else AfterLiteral(d[UnitLength(d)..])
  }

  /** Every backslash inside a string starts an escape, and every \u has its four digits. */
  predicate EscapesWellFormed(d: bytes, inString: bool) {
    if d == [] then true
    else if !inString then EscapesWellFormed(d[1..], d[0] == QUOTE)
    else if d[0] == QUOTE then EscapesWellFormed(d[1..], false)
    else
      && (d[0] == BACKSLASH ==> |d| >= 2 && (d[1] == LETTER_U ==> UnicodeEscape(d)))
      && EscapesWellFormed(d[UnitLength(d)..], true)
  }

  predicate HighUnit(u: Unit) { u.Escape? && IsHigh(u.v) }
  predicate LowUnit(u: Unit) { u.Escape? && IsLow(u.v) }

  /** Each high surrogate escape is directly followed by a low one, and each low one directly follows a high one. */
  predicate Paired(us: seq<Unit>) {
    && (forall i | 0 <= i < |us| && HighUnit(us[i]) :: i + 1 < |us| && LowUnit(us[i + 1]))
    && (forall i | 0 <= i < |us| && LowUnit(us[i]) :: i > 0 && HighUnit(us[i - 1]))
  }

  /** Every string literal of the text d (which starts outside any) has its surrogate escapes paired. */
  predicate AllPaired(d: bytes)
    decreases |d|
  {
    if d == [] then true
    else if d[0] != QUOTE then AllPaired(d[1..])
    else Paired(LiteralUnits(d[1..])) && AllPaired(AfterLiteral(d[1..]))
  }

  lemma PairedCons(u: Unit, us: seq<Unit>)
    requires !HighUnit(u) && !LowUnit(u)
    ensures Paired([u] + us) == Paired(us)
  {
    var w := [u] + us;
    assert forall i | 0 <= i < |us| :: w[i + 1] == us[i];
    if Paired(w) {
      forall i | 0 <= i < |us| && HighUnit(us[i]) ensures i + 1 < |us| && LowUnit(us[i + 1]) {
        assert HighUnit(w[i + 1]);
      }
      forall i | 0 <= i < |us| && LowUnit(us[i]) ensures i > 0 && HighUnit(us[i - 1]) {
        assert LowUnit(w[i + 1]) && HighUnit(w[i]);
      }
    }
  }

  lemma PairedPair(h: Unit, l: Unit, us: seq<Unit>)
    requires HighUnit(h) && LowUnit(l)
    ensures Paired([h, l] + us) == Paired(us)
  {
    var w := [h, l] + us;
    assert forall i | 0 <= i < |us| :: w[i + 2] == us[i];
    if Paired(w) {
      forall i | 0 <= i < |us| && HighUnit(us[i]) ensures i + 1 < |us| && LowUnit(us[i + 1]) {
        assert HighUnit(w[i + 2]);
      }
      forall i | 0 <= i < |us| && LowUnit(us[i]) ensures i > 0 && HighUnit(us[i - 1]) {
        assert LowUnit(w[i + 2]) && HighUnit(w[i + 1]);
      }
    }
  }

  lemma PairedBadHead(us: seq<Unit>)
    requires us != []
    requires LowUnit(us[0]) || (HighUnit(us[0]) && (|us| == 1 || !LowUnit(us[1])))
    ensures !Paired(us)
  {
  }

  lemma {:induction false} ScanInside(d: bytes)
    requires EscapesWellFormed(d, true)
    ensures Scan(d, true) == (Paired(LiteralUnits(d)) && AllPaired(AfterLiteral(d)))
    decreases |d|, 1
  {
    hide HexValue, Paired;
    if d == [] || d[0] == QUOTE {
      assert Paired([]) by { PairedEmpty(); }
      if d != [] { ScanOutside(d[1..]); }
    } else {
      var n := UnitLength(d);
      var us := LiteralUnits(d[n..]);
      if !UnicodeEscape(d) {
        ScanInside(d[n..]);
        PairedCons(Plain, us);
      } else {
        var u := Escape(HexValue(d[2..]).value);
        assert LiteralUnits(d) == [u] + us;
        if HighUnit(u) {
          ScanHigh(d, u);
        } else if LowUnit(u) {
          PairedBadHead([u] + us);
        } else {
          ScanInside(d[6..]);
          PairedCons(u, us);
        }
      }
    }
  }

  lemma PairedEmpty()
    ensures Paired([])
  {
  }

  lemma {:induction false} ScanHigh(d: bytes, u: Unit)
    requires EscapesWellFormed(d, true) && UnicodeEscape(d)
    requires u == Escape(HexValue(d[2..]).value) && HighUnit(u)
    ensures Scan(d, true) == (Paired(LiteralUnits(d)) && AllPaired(AfterLiteral(d)))
    decreases |d|, 0
  {
    hide HexValue, Paired;
    var e := d[6..];
    assert LiteralUnits(d) == [u] + LiteralUnits(e);
    assert AfterLiteral(d) == AfterLiteral(e);
    if UnicodeEscape(e) && IsLow(HexValue(e[2..]).value) {
      var l := Escape(HexValue(e[2..]).value);
      var us := LiteralUnits(e[6..]);
      assert e[2..] == d[8..] && e[6..] == d[12..];
      assert LiteralUnits(e) == [l] + us;
      assert [u] + ([l] + us) == [u, l] + us;
      PairedPair(u, l, us);
      ScanInside(e[6..]);
    } else {
      if LiteralUnits(e) != [] { assert !LowUnit(LiteralUnits(e)[0]); }
      assert |d| >= 8 ==> e[0] == d[6] && e[1] == d[7] && e[2..] == d[8..];
      PairedBadHead([u] + LiteralUnits(e));
    }
  }

  /** The scanner accepts exactly the texts whose surrogate escapes are paired. */
  lemma {:induction false} ScanOutside(d: bytes)
    requires EscapesWellFormed(d, false)
    ensures Scan(d, false) == AllPaired(d)
    decreases |d|, 1
  {
    hide Paired;
    if d != [] {
      if d[0] == QUOTE { ScanInside(d[1..]); } else { ScanOutside(d[1..]); }
    }
  }
}
