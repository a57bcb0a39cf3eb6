/** Lexicographic order on code units, and the UTF-16 order RFC 8785 section 3.2.3 sorts object keys by. */
module Order {
  predicate Less(a: seq<int>, b: seq<int>) {
    b != [] && (a == [] || a[0] < b[0] || (a[0] == b[0] && Less(a[1..], b[1..])))
  }

  lemma {:induction false} LessIrreflexive(a: seq<int>)
    ensures !Less(a, a)
  {
    if a != [] { LessIrreflexive(a[1..]); }
  }

  lemma {:induction false} LessTransitive(a: seq<int>, b: seq<int>, c: seq<int>)
    requires Less(a, b) && Less(b, c)
    ensures Less(a, c)
  {
    if a != [] && a[0] == b[0] == c[0] { LessTransitive(a[1..], b[1..], c[1..]); }
  }

  lemma {:induction false} LessTotal(a: seq<int>, b: seq<int>)
    ensures Less(a, b) || a == b || Less(b, a)
  {
    if a != [] && b != [] && a[0] == b[0] {
      LessTotal(a[1..], b[1..]);
      assert a == [a[0]] + a[1..] && b == [b[0]] + b[1..];
    }
  }

  /** A shared prefix does not affect the order. */
  lemma {:induction false} LessDrop(a: seq<int>, b: seq<int>, i: nat)
    requires i <= |a| && i <= |b| && a[..i] == b[..i]
    ensures Less(a, b) == Less(a[i..], b[i..])
  {
    if i == 0 {
      assert a[0..] == a && b[0..] == b;
    } else {
      assert a[0] == a[..i][0] == b[..i][0] == b[0];
      assert a[1..][..i-1] == a[..i][1..] == b[..i][1..] == b[1..][..i-1];
      LessDrop(a[1..], b[1..], i - 1);
      assert a[1..][i-1..] == a[i..] && b[1..][i-1..] == b[i..];
    }
  }

  /** utf16.Encode of one rune: one unit, or a high and a low surrogate. */
  function Units(c: char): (u: seq<int>)
    ensures |u| == 1 || |u| == 2
  {
    var v := c as int;
    if v < 0x10000 then [v]
    else [0xD800 + (v - 0x10000) / 0x400, 0xDC00 + (v - 0x10000) % 0x400]
  }

  function Utf16(s: string): seq<int> {
    if s == "" then [] else Units(s[0]) + Utf16(s[1..])
  }

  /** The key order: by UTF-16 code units. */
  predicate KeyLess(a: string, b: string) { Less(Utf16(a), Utf16(b)) }

  lemma UnitsPrefixFree(c: char, d: char, x: seq<int>, y: seq<int>)
    requires Units(c) + x == Units(d) + y
    ensures c == d && x == y
  {
    var l, r := Units(c) + x, Units(d) + y;
    assert l[0] == Units(c)[0] && r[0] == Units(d)[0];
    assert |Units(c)| == |Units(d)|;
    if |Units(c)| == 2 { assert l[1] == Units(c)[1] && r[1] == Units(d)[1]; }
    assert x == l[|Units(c)|..] && y == r[|Units(d)|..];
  }

  lemma {:induction false} Utf16Injective(a: string, b: string)
    requires Utf16(a) == Utf16(b)
    ensures a == b
  {
    if a != "" && b != "" {
      UnitsPrefixFree(a[0], b[0], Utf16(a[1..]), Utf16(b[1..]));
      Utf16Injective(a[1..], b[1..]);
      assert a == [a[0]] + a[1..] && b == [b[0]] + b[1..];
    }
  }

  /** The key order is a strict total order on strings: sorting by it leaves no choice. */
  lemma KeyLessStrictTotal(a: string, b: string, c: string)
    ensures !KeyLess(a, a)
    ensures KeyLess(a, b) || a == b || KeyLess(b, a)
    ensures KeyLess(a, b) && KeyLess(b, c) ==> KeyLess(a, c)
    ensures KeyLess(a, b) ==> !KeyLess(b, a)
  {
    LessIrreflexive(Utf16(a));
    LessTotal(Utf16(a), Utf16(b));
    if Utf16(a) == Utf16(b) { Utf16Injective(a, b); }
    if KeyLess(a, b) {
      if KeyLess(b, c) { LessTransitive(Utf16(a), Utf16(b), Utf16(c)); }
      if KeyLess(b, a) { LessTransitive(Utf16(a), Utf16(b), Utf16(a)); }
    }
  }

  /** utf16Less: encode both, compare unit by unit, then by length. */
  method Utf16Less(a: string, b: string) returns (less: bool)
    ensures less == KeyLess(a, b)
  {
    var ua, ub := Utf16(a), Utf16(b);
    var i := 0;
    while i < |ua| && i < |ub|
      invariant 0 <= i <= |ua| && i <= |ub|
      invariant ua[..i] == ub[..i]
    {
      if ua[i] != ub[i] {
        LessDrop(ua, ub, i);
        return ua[i] < ub[i];
      }
      i := i + 1;
    }
    LessDrop(ua, ub, i);
    return |ua| < |ub|;
  }

  /** Where a character stands in the key order: those past U+FFFF come before U+E000 to U+FFFF. */
  function Rank(c: char): int {
    var v := c as int;
    if v < 0xE000 then v else if v < 0x10000 then v + 0x110000 else v
  }

  function Ranks(s: string): seq<int> { seq(|s|, i requires 0 <= i < |s| => Rank(s[i])) }

  lemma UnitsByRank(c: char, d: char, x: seq<int>, y: seq<int>)
    requires c != d
    ensures Less(Units(c) + x, Units(d) + y) <==> Rank(c) < Rank(d)
  {
    var a, b := Units(c) + x, Units(d) + y;
    assert a[0] == Units(c)[0] && b[0] == Units(d)[0];
    if a[0] == b[0] {
      assert |Units(c)| == 2 && |Units(d)| == 2;
      assert a[1..][0] == Units(c)[1] && b[1..][0] == Units(d)[1];
      assert Units(c)[1] != Units(d)[1];
    }
  }

  /** The UTF-16 order is the order by character, with that one exception to the order of code points. */
  lemma {:induction false} KeyLessByRank(a: string, b: string)
    ensures KeyLess(a, b) <==> Less(Ranks(a), Ranks(b))
  {
    if a != "" && b != "" {
      var x, y := Utf16(a[1..]), Utf16(b[1..]);
      assert Ranks(a)[1..] == Ranks(a[1..]) && Ranks(b)[1..] == Ranks(b[1..]);
      if a[0] == b[0] {
        KeyLessByRank(a[1..], b[1..]);
        var u := Units(a[0]);
        assert (u + x)[..|u|] == u == (u + y)[..|u|] && (u + x)[|u|..] == x && (u + y)[|u|..] == y;
        LessDrop(u + x, u + y, |u|);
      } else {
        UnitsByRank(a[0], b[0], x, y);
      }
    }
  }
}
