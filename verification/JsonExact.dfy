/**
 The reader against the grammar, both ways: it reads the text of every tree as
 its meaning, or refuses it for a repeated key, and whatever it reads is the
 text of such a tree.
 */
module JsonExact {
  import opened Base
  import opened Json
  import opened JsonGrammar
  import opened CanonicalReader
  import Utf8

  // ---- White space ----

  lemma {:induction false} SkipBlank(b: string, s: string)
    requires Blank(b)
    ensures SkipSpace(b + s) == SkipSpace(s)
  {
    if b == "" {
      assert b + s == s;
    } else {
      assert (b + s)[1..] == b[1..] + s;
      assert b[0] in " \t\n\r";
      SkipBlank(b[1..], s);
    }
  }

  /** What is skipped is blank and what is left does not begin with a space. */
  lemma {:induction false} Skipped(s: string) returns (b: string)
    ensures Blank(b) && s == b + SkipSpace(s) && (SkipSpace(s) != "" ==> !IsSpace(SkipSpace(s)[0]))
  {
    if s != "" && IsSpace(s[0]) {
      var c := Skipped(s[1..]);
      b := [s[0]] + c;
    } else {
      b := "";
    }
  }

  /** A mark: the next character, which is not a space. */
  lemma AtMark(b: string, s: string)
    requires Blank(b) && (s != "" ==> !IsSpace(s[0]))
    ensures SkipSpace(b + s) == s
  {
    SkipBlank(b, s);
  }

  // ---- Characters ----

  lemma HexDigitVal(c: char, d: int)
    ensures HexDigit(c, d) <==> HexVal(c) == Some(d)
  {
    if 0 <= d < 16 {
      var lower, upper := "0123456789abcdef"[d], "0123456789ABCDEF"[d];
      assert HexVal(lower) == Some(d) && HexVal(upper) == Some(d);
    }
  }

  lemma LastDigit(x: int, d: int, v: int)
    requires 0 <= d < 16
    ensures v == x * 16 + d <==> v / 16 == x && v % 16 == d
  {
  }

  lemma HexNames(s: string, v: int)
    requires |s| >= 4
    ensures Names(s[..4], v) <==> Hex4(s) == Some(v)
  {
    HexDigitVal(s[0], v / 16 / 16 / 16);
    HexDigitVal(s[1], v / 16 / 16 % 16);
    HexDigitVal(s[2], v / 16 % 16);
    HexDigitVal(s[3], v % 16);
    var a, b, c, d := HexVal(s[0]), HexVal(s[1]), HexVal(s[2]), HexVal(s[3]);
    hide HexDigit, HexVal;
    if a.Some? && b.Some? && c.Some? && d.Some? {
      LastDigit((a.value * 16 + b.value) * 16 + c.value, d.value, v);
      LastDigit(a.value * 16 + b.value, c.value, v / 16);
      LastDigit(a.value, b.value, v / 16 / 16);
    }
  }

  /** The text goes on with the escape of a low surrogate. */
  predicate LowEscape(s: string) {
    |s| >= 6 && s[0] == '\\' && s[1] == 'u' && Hex4(s[2..]).Some? && IsLow(Hex4(s[2..]).value)
  }

  lemma ReadUnit(hex: string, v: int, rest: string)
    requires Names(hex, v)
    ensures Hex4(hex + rest) == Some(v) && (hex + rest)[4..] == rest
  {
    assert (hex + rest)[..4] == hex;
    HexNames(hex + rest, v);
  }

  lemma ReadShort(letter: char, rest: string)
    requires letter in ESCAPES
    ensures ParseEscape([letter] + rest) == Done(ESCAPES[letter], rest)
  {
    hide ParseUnicode;
    assert ([letter] + rest)[1..] == rest;
  }

  lemma ReadEscape(hex: string, v: int, rest: string)
    requires Names(hex, v) && !(High(v) && LowEscape(rest))
    ensures ParseUnicode(hex + rest) == Done(if High(v) || Low(v) then Utf8.REPLACEMENT else v as char, rest)
  {
    ReadUnit(hex, v, rest);
    hide Hex4, Names;
    if |rest| >= 2 { assert (hex + rest)[6..] == rest[2..]; }
  }

  lemma ReadPair(hex: string, v: int, lowHex: string, low: int, rest: string)
    requires Names(hex, v) && High(v) && Names(lowHex, low) && Low(low)
    ensures ParseUnicode(hex + Escape(lowHex, rest))
         == Done(((v - 0xD800) * 1024 + (low - 0xDC00) + 0x10000) as char, rest)
  {
    assert |hex| == |lowHex| == 4;
    hide Hex4, Names;
    var more := Escape(lowHex, rest);
    var t := hex + more;
    ReadUnit(hex, v, more);
    ReadUnit(lowHex, low, rest);
    assert t[4] == '\\' && t[5] == 'u' && t[6..] == lowHex + rest && t[10..] == rest;
  }

  lemma Escaping(t: string)
    ensures ParseChar("\\u" + t) == ParseUnicode(t)
  {
    hide ParseUnicode;
    assert ("\\u" + t)[1..][1..] == t;
  }

  function Escape(hex: string, rest: string): string { "\\u" + (hex + rest) }

  lemma Shape(p: Spelling, rest: string)
    ensures var t := SpellingText(p) + rest;
            match p
            case Plain(c) => t == [c] + rest
            case Short(letter) => t == ['\\'] + ([letter] + rest)
            case Unit(_, hex) => t == Escape(hex, rest)
            case Lone(_, hex) => t == Escape(hex, rest)
            case Pair(_, hex, _, lowHex) => t == Escape(hex, Escape(lowHex, rest))
  {
  }

  /** One character, however it is spelled, is read as the character it names. */
  lemma ReadSpelling(p: Spelling, rest: string)
    requires SpellingGood(p) && !(p.Lone? && High(p.v) && LowEscape(rest))
    ensures var t := SpellingText(p) + rest;
            t != "" && t[0] != '"' && ParseChar(t) == Done(SpellingChar(p), rest)
  {
    Shape(p, rest);
    var t := SpellingText(p) + rest;
    hide ParseUnicode, ParseEscape, Names, LowEscape, SpellingText;
    match p
    case Plain(c) => assert t[1..] == rest;
    case Short(letter) =>
      assert t[1..] == [letter] + rest;
      ReadShort(letter, rest);
    case Unit(v, hex) =>
      ReadEscape(hex, v, rest);
      Escaping(hex + rest);
    case Lone(v, hex) =>
      ReadEscape(hex, v, rest);
      Escaping(hex + rest);
    case Pair(v, hex, low, lowHex) =>
      ReadPair(hex, v, lowHex, low, rest);
      Escaping(hex + Escape(lowHex, rest));
  }

  lemma LowUnit(hex: string, v: int, rest: string)
    requires Names(hex, v)
    ensures LowEscape(Escape(hex, rest)) <==> Low(v)
  {
    var t := Escape(hex, rest);
    ReadUnit(hex, v, rest);
    assert |hex| == 4;
    hide Hex4, Names;
    assert t[2..] == hex + rest;
  }

  lemma NotUnicode(t: string)
    requires t == "" || t[0] != '\\' || (|t| >= 2 && t[1] != 'u')
    ensures !LowEscape(t)
  {
    hide Hex4;
  }

  lemma ShortIsNotU(letter: char)
    requires letter in ESCAPES
    ensures letter != 'u'
  {
  }

  /** Only the lone low surrogate begins like one. */
  lemma LowSpelling(p: Spelling, rest: string)
    requires SpellingGood(p)
    ensures LowEscape(SpellingText(p) + rest) <==> p.Lone? && Low(p.v)
  {
    Shape(p, rest);
    hide Names, LowEscape, Escape, SpellingText;
    var t := SpellingText(p) + rest;
    match p
    case Plain(_) => NotUnicode(t);
    case Short(letter) => ShortIsNotU(letter); NotUnicode(t);
    case Unit(v, hex) => LowUnit(hex, v, rest);
    case Lone(v, hex) => LowUnit(hex, v, rest);
    case Pair(v, hex, low, lowHex) => LowUnit(hex, v, Escape(lowHex, rest));
  }

  lemma StartsLow(cs: seq<Spelling>, rest: string)
    requires SpellingsGood(cs)
    ensures LowEscape(SpellingsText(cs) + "\"" + rest) <==> IsLone(cs, 0, false)
  {
    hide LowEscape, SpellingGood;
    var t := SpellingsText(cs) + "\"" + rest;
    if cs == [] {
      NotUnicode(t);
    } else {
      var more := SpellingsText(cs[1..]) + "\"" + rest;
      assert SpellingGood(cs[0]);
      LowSpelling(cs[0], more);
      assert t == SpellingText(cs[0]) + more;
    }
  }

  lemma {:induction false} ReadSpellings(cs: seq<Spelling>, rest: string)
    requires SpellingsGood(cs)
    ensures ParseChars(SpellingsText(cs) + "\"" + rest) == Done(Chars(cs), rest)
  {
    hide SpellingGood, LowEscape, ParseChar, SpellingText, IsLone;
    var t := SpellingsText(cs) + "\"" + rest;
    if cs == [] {
      assert t == "\"" + rest && t[1..] == rest;
    } else {
      var more := SpellingsText(cs[1..]) + "\"" + rest;
      assert t == SpellingText(cs[0]) + more;
      TailGood(cs);
      StartsLow(cs[1..], rest);
      LoneTail(cs);
      ReadSpelling(cs[0], more);
      ReadSpellings(cs[1..], rest);
    }
  }

  lemma LoneTail(cs: seq<Spelling>)
    requires cs != []
    ensures IsLone(cs[1..], 0, false) <==> IsLone(cs, 1, false)
    ensures IsLone(cs, 0, true) <==> cs[0].Lone? && High(cs[0].v)
  {
  }

  lemma TailGood(cs: seq<Spelling>)
    requires SpellingsGood(cs) && cs != []
    ensures SpellingsGood(cs[1..]) && !(IsLone(cs, 0, true) && IsLone(cs, 1, false))
  {
    var t := cs[1..];
    forall i | 0 <= i < |t| - 1 ensures !(IsLone(t, i, true) && IsLone(t, i + 1, false)) {
      assert !(IsLone(cs, i + 1, true) && IsLone(cs, i + 2, false));
    }
    if |cs| > 1 { assert !(IsLone(cs, 0, true) && IsLone(cs, 0 + 1, false)); }
  }

  lemma HexOf(h: string) returns (hex: string)
    requires Hex4(h).Some?
    ensures Names(hex, Hex4(h).value) && |hex| == 4 && h == hex + h[4..]
  {
    hex := h[..4];
    HexNames(h, Hex4(h).value);
  }

  lemma UnicodeOf(h: string) returns (p: Spelling)
    requires ParseUnicode(h).Done?
    ensures SpellingGood(p) && "\\u" + h == SpellingText(p) + ParseUnicode(h).rest
    ensures SpellingChar(p) == ParseUnicode(h).v && (p.Lone? && High(p.v) ==> !LowEscape(ParseUnicode(h).rest))
  {
    hide Hex4, Names;
    var hex := HexOf(h);
    var v := Hex4(h).value;
    if |h| >= 6 { assert h[4..][2..] == h[6..]; }
    if !IsHigh(v) && !IsLow(v) {
      p := Unit(v, hex);
    } else if IsHigh(v) && LowEscape(h[4..]) {
      var lowHex := HexOf(h[6..]);
      var low := Hex4(h[6..]).value;
      p := Pair(v, hex, low, lowHex);
      assert h[6..][4..] == h[10..];
      assert h[4..] == "\\u" + h[6..];
    } else {
      p := Lone(v, hex);
    }
  }

  lemma SpellingOf(s: string) returns (p: Spelling)
    requires s != "" && s[0] != '"' && ParseChar(s).Done?
    ensures SpellingGood(p) && s == SpellingText(p) + ParseChar(s).rest
    ensures SpellingChar(p) == ParseChar(s).v && (p.Lone? && High(p.v) ==> !LowEscape(ParseChar(s).rest))
  {
    if s[0] != '\\' {
      p := Plain(s[0]);
    } else if s[1] != 'u' {
      p := Short(s[1]);
      hide ParseUnicode;
      assert s == [s[0], s[1]] + s[1..][1..];
    } else {
      p := UnicodeOf(s[1..][1..]);
      hide ParseUnicode, SpellingGood, LowEscape;
      assert s == "\\u" + s[1..][1..];
    }
  }

  lemma {:induction false} SpellingsOf(s: string) returns (cs: seq<Spelling>)
    requires ParseChars(s).Done?
    ensures SpellingsGood(cs) && s == SpellingsText(cs) + "\"" + ParseChars(s).rest && Chars(cs) == ParseChars(s).v
    decreases |s|
  {
    if s[0] == '"' {
      cs := [];
      assert s == "\"" + s[1..];
    } else {
      hide SpellingGood, LowEscape, ParseChar;
      var p := SpellingOf(s);
      var more := ParseChar(s).rest;
      var ps := SpellingsOf(more);
      cs := [p] + ps;
      LoneFirst(p, ps, ParseChars(s).rest);
      assert cs[1..] == ps;
    }
  }

  lemma LoneFirst(p: Spelling, ps: seq<Spelling>, rest: string)
    requires SpellingGood(p) && SpellingsGood(ps)
    requires p.Lone? && High(p.v) ==> !LowEscape(SpellingsText(ps) + "\"" + rest)
    ensures SpellingsGood([p] + ps)
  {
    hide SpellingGood, LowEscape, SpellingText;
    var cs := [p] + ps;
    StartsLow(ps, rest);
    forall i | 0 <= i < |cs| - 1 ensures !(IsLone(cs, i, true) && IsLone(cs, i + 1, false)) {
      if i > 0 { assert !(IsLone(ps, i - 1, true) && IsLone(ps, i - 1 + 1, false)); }
    }
  }

  // ---- Numbers ----

  predicate NoDigit(s: string) { s == "" || !IsDigit(s[0]) }

  lemma {:induction false} DigitRunOf(d: string, rest: string)
    requires (forall i | 0 <= i < |d| :: '0' <= d[i] <= '9') && NoDigit(rest)
    ensures DigitRun(d + rest) == |d|
  {
    if d == "" {
      assert d + rest == rest;
    } else {
      assert (d + rest)[1..] == d[1..] + rest;
      DigitRunOf(d[1..], rest);
    }
  }

  lemma {:induction false} DigitRunDigits(s: string)
    ensures forall i | 0 <= i < DigitRun(s) :: '0' <= s[i] <= '9'
  {
    if s != "" && IsDigit(s[0]) {
      DigitRunDigits(s[1..]);
      forall i | 0 <= i < DigitRun(s) ensures '0' <= s[i] <= '9' { if i > 0 { assert s[i] == s[1..][i - 1]; } }
    }
  }

  lemma ReadWhole(n: Numeral, rest: string)
    requires NumeralGood(n) && NoDigit(rest)
    ensures IntegerLength(WholeText(n) + rest) == Some(|WholeText(n)|)
  {
    var t, sign := WholeText(n) + rest, if n.minus then 1 else 0;
    assert t[sign..] == n.whole + rest && t[sign] == n.whole[0];
    DigitRunOf(n.whole, rest);
  }

  lemma ReadFraction(f: Option<string>, rest: string)
    requires (f.Some? ==> Digits(f.value)) && NoDigit(rest) && (rest != "" ==> rest[0] != '.')
    ensures FractionLength(FractionText(f) + rest) == Some(|FractionText(f)|)
  {
    var t := FractionText(f) + rest;
    if f.Some? {
      assert t[1..] == f.value + rest;
      DigitRunOf(f.value, rest);
    } else {
      assert t == rest;
    }
  }

  lemma ReadExponent(n: Numeral, rest: string)
    requires NumeralGood(n) && EndsNumber(rest)
    ensures ExponentLength(ExponentText(n.exponent) + rest) == Some(|ExponentText(n.exponent)|)
  {
    if n.exponent.Some? {
      var e := n.exponent.value;
      ExponentShape(e, rest);
      DigitRunOf(e.digits, rest);
      hide DigitRun, ExponentText, EndsNumber;
    } else {
      assert ExponentText(n.exponent) + rest == rest;
    }
  }

  lemma ExponentShape(e: Exponent, rest: string)
    requires Digits(e.digits) && (e.sign == "" || e.sign == "+" || e.sign == "-")
    ensures var t := ExponentText(Some(e)) + rest;
            && |ExponentText(Some(e))| == 1 + |e.sign| + |e.digits| && |t| > 1 && t[0] == e.e
            && (e.sign != "" <==> t[1] == '+' || t[1] == '-') && t[1 + |e.sign|..] == e.digits + rest
  {
    var t := ExponentText(Some(e)) + rest;
    assert t[1] == if e.sign == "" then e.digits[0] else e.sign[0];
  }

  lemma ReadNumeral(n: Numeral, rest: string)
    requires NumeralGood(n) && EndsNumber(rest)
    ensures ParseNumber(NumberText(n) + rest) == Done(NumberText(n), rest)
  {
    hide IntegerLength, FractionLength, ExponentLength, WholeText, ExponentText, NumeralGood, EndsNumber;
    var w, f, x := WholeText(n), FractionText(n.fraction), ExponentText(n.exponent);
    ExponentHead(n, rest);
    FractionHead(n, x + rest);
    ReadExponent(n, rest);
    ReadFraction(n.fraction, x + rest);
    ReadWhole(n, f + (x + rest));
    Thirds(w, f, x, rest);
  }

  lemma Thirds(a: string, b: string, c: string, rest: string)
    ensures var t := a + b + c + rest;
            && t == a + (b + (c + rest)) && t[|a|..] == b + (c + rest) && t[|a| + |b|..] == c + rest
            && t[..|a| + |b| + |c|] == a + b + c && t[|a| + |b| + |c|..] == rest
  {
  }

  lemma FractionHead(n: Numeral, rest: string)
    requires NumeralGood(n) && NoDigit(rest)
    ensures NoDigit(FractionText(n.fraction) + rest) && (n.fraction.Some? ==> Digits(n.fraction.value))
  {
    if n.fraction.None? { assert FractionText(n.fraction) + rest == rest; }
  }

  lemma ExponentHead(n: Numeral, rest: string)
    requires NumeralGood(n) && EndsNumber(rest)
    ensures var x := ExponentText(n.exponent) + rest; NoDigit(x) && (x != "" ==> x[0] != '.')
  {
    if n.exponent.None? { assert ExponentText(n.exponent) + rest == rest; }
  }

  lemma WholeOf(s: string) returns (minus: bool, whole: string)
    requires IntegerLength(s).Some?
    ensures whole != "" && Digits(whole) && (whole[0] == '0' ==> |whole| == 1)
    ensures (if minus then "-" else "") + whole == s[..IntegerLength(s).value]
  {
    minus := s[0] == '-';
    var sign := if minus then 1 else 0;
    whole := s[sign..IntegerLength(s).value];
    DigitRunDigits(s[sign..]);
    if s[sign] != '0' {
      forall i | 0 <= i < |whole| ensures '0' <= whole[i] <= '9' { assert whole[i] == s[sign..][i]; }
    }
  }

  lemma FractionOf(s: string) returns (f: Option<string>)
    requires FractionLength(s).Some?
    ensures (f.Some? ==> Digits(f.value)) && FractionText(f) == s[..FractionLength(s).value]
  {
    if s == "" || s[0] != '.' {
      f := None;
    } else {
      DigitRunDigits(s[1..]);
      f := Some(s[1..][..DigitRun(s[1..])]);
    }
  }

  lemma ExponentOf(s: string) returns (e: Option<Exponent>)
    requires ExponentLength(s).Some?
    ensures ExponentText(e) == s[..ExponentLength(s).value]
    ensures e.Some? ==> && (e.value.e == 'e' || e.value.e == 'E') && Digits(e.value.digits)
                        && (e.value.sign == "" || e.value.sign == "+" || e.value.sign == "-")
  {
    if s == "" || (s[0] != 'e' && s[0] != 'E') {
      e := None;
    } else {
      var sign := if |s| > 1 && (s[1] == '+' || s[1] == '-') then 1 else 0;
      var d := s[1 + sign..];
      DigitRunDigits(d);
      e := Some(Exponent(s[0], s[1..1 + sign], d[..DigitRun(d)]));
    }
  }

  lemma NumeralOf(s: string) returns (n: Numeral)
    requires ParseNumber(s).Done?
    ensures NumeralGood(n) && NumberText(n) == ParseNumber(s).v
  {
    hide IntegerLength, FractionLength, ExponentLength, FractionText, ExponentText, Digits;
    var i := IntegerLength(s).value;
    var f := FractionLength(s[i..]).value;
    var minus, whole := WholeOf(s);
    var fraction := FractionOf(s[i..]);
    var exponent := ExponentOf(s[i + f..]);
    n := Numeral(minus, whole, fraction, exponent);
    InThirds(s, i, f, ExponentLength(s[i + f..]).value);
  }

  lemma InThirds(s: string, a: nat, b: nat, c: nat)
    requires a + b + c <= |s|
    ensures s[..a + b + c] == s[..a] + s[a..][..b] + s[a + b..][..c]
  {
  }

  // ---- Every text of the grammar is read as its meaning ----

  /** The end of the text, or a mark that closes or continues an array or object. */
  predicate Closes(s: string) { s == "" || s[0] == ',' || s[0] == ']' || s[0] == '}' }

  /** What the reader makes of a tree in front of the text rest. */
  function Answer(t: Tree, rest: string): Parsed<Value>
    requires Good(t)
  {
    if Unique(t) then Done(Meaning(t), rest) else Fail
  }

  lemma NumberHead(n: Numeral)
    requires NumeralGood(n)
    ensures NumberText(n) != "" && (NumberText(n)[0] == '-' || IsDigit(NumberText(n)[0]))
  {
    assert NumberText(n)[0] == WholeText(n)[0];
  }

  lemma TreeHead(t: Tree)
    requires Good(t)
    ensures Text(t) != "" && !IsSpace(Text(t)[0]) && Text(t)[0] != ']' && Text(t)[0] != '}'
  {
    if t.Number? { NumberHead(t.n); hide NumberText; }
  }

  lemma BlankFirst(b: string, s: string, acc: map<string, Value>)
    requires Blank(b)
    ensures ParseValue(b + s) == ParseValue(s) && ParseMembers(b + s, acc) == ParseMembers(s, acc)
  {
    SkipBlank(b, s);
  }

  lemma ItemHead(i: Item, rest: string)
    requires Good(i.tree)
    ensures var body := ItemText(i) + rest;
            body == i.before + (Text(i.tree) + (i.after + rest))
  {
    hide Text;
  }

  /** Past the white space an item begins with neither closing bracket. */
  lemma ItemOpens(i: Item, rest: string)
    requires Spaced(i) && Good(i.tree)
    ensures var u := SkipSpace(ItemText(i) + rest); u != "" && u[0] != ']' && u[0] != '}'
  {
    TreeHead(i.tree);
    ItemHead(i, rest);
    hide Text, ItemText;
    AtMark(i.before, Text(i.tree) + (i.after + rest));
  }

  lemma EndsAfter(after: string, rest: string)
    requires Blank(after) && Closes(rest)
    ensures EndsNumber(after + rest) && SkipSpace(after + rest) == rest
  {
    AtMark(after, rest);
    if after != "" {
      assert (after + rest)[0] == after[0] && after[0] in " \t\n\r";
    } else {
      assert after + rest == rest;
    }
  }

  lemma ReadBrackets(body: string)
    ensures ParseValue("[" + body) ==
      var u := SkipSpace(body);
      if u != "" && u[0] == ']' then Done(Arr([]), u[1..])
      else match ParseElements(body)
        case Fail => Fail
        case Done(a, rest) => Done(Arr(a), rest)
  {
    var t := "[" + body;
    SkipNothing(t);
    assert t[1..] == body;
  }

  lemma ReadBraces(body: string)
    ensures ParseValue("{" + body) ==
      var u := SkipSpace(body);
      if u != "" && u[0] == '}' then Done(Obj(map[]), u[1..])
      else match ParseMembers(body, map[])
        case Fail => Fail
        case Done(m, rest) => Done(Obj(m), rest)
  {
    var t := "{" + body;
    SkipNothing(t);
    assert t[1..] == body;
  }

  lemma ReadQuoted(cs: seq<Spelling>, rest: string)
    requires SpellingsGood(cs)
    ensures ParseValue(QuotedText(cs) + rest) == Done(Str(Chars(cs)), rest)
  {
    hide ParseChars, SpellingsGood;
    var t := QuotedText(cs) + rest;
    SkipNothing(t);
    assert t[1..] == SpellingsText(cs) + "\"" + rest;
    ReadSpellings(cs, rest);
  }

  lemma {:induction false} ReadTree(t: Tree, rest: string)
    requires Good(t) && EndsNumber(rest)
    ensures ParseValue(Text(t) + rest) == Answer(t, rest)
    decreases t, 1
  {
    hide ParseValue, ParseNumber, NumberText, QuotedText, EndsNumber, SkipSpace, ParseElements, ParseMembers;
    match t
    case NullWord => ReadWord(Null, rest);
    case BoolWord(b) => ReadWord(Bool(b), rest);
    case Number(n) =>
      ReadNumeral(n, rest);
      NumberHead(n);
      assert (NumberText(n) + rest)[0] == NumberText(n)[0];
      ReadNumber(NumberText(n) + rest);
    case Quoted(cs) => ReadQuoted(cs, rest);
    case EmptyArray(space) =>
      AtMark(space, "]" + rest);
      ReadBrackets(space + ("]" + rest));
      assert Text(t) + rest == "[" + (space + ("]" + rest)) && ("]" + rest)[1..] == rest;
    case EmptyObject(space) =>
      AtMark(space, "}" + rest);
      ReadBraces(space + ("}" + rest));
      assert Text(t) + rest == "{" + (space + ("}" + rest)) && ("}" + rest)[1..] == rest;
    case Array(items) => ReadArrayTree(items, rest);
    case Object(members) => ReadObjectTree(members, rest);
  }

  lemma {:induction false} ReadArrayTree(items: Items, rest: string)
    requires ItemsGood(items)
    ensures ParseValue(Text(Array(items)) + rest) == Answer(Array(items), rest)
    decreases items, 2
  {
    hide ParseValue, SkipSpace, ParseElements;
    var body := ItemsText(items) + ("]" + rest);
    assert Text(Array(items)) + rest == "[" + body;
    var after := if items.One? then "]" + rest else "," + ItemsText(items.rest) + ("]" + rest);
    assert body == ItemText(items.item) + after;
    ItemOpens(items.item, after);
    ReadBrackets(body);
    ReadItems(items, rest);
  }

  lemma {:induction false} ReadItem(i: Item, rest: string)
    requires Spaced(i) && Good(i.tree) && Closes(rest)
    ensures ParseValue(ItemText(i) + rest) == Answer(i.tree, i.after + rest) && SkipSpace(i.after + rest) == rest
    decreases i, 2
  {
    hide ParseValue, Text, EndsNumber, SkipSpace;
    ItemHead(i, rest);
    BlankFirst(i.before, Text(i.tree) + (i.after + rest), map[]);
    EndsAfter(i.after, rest);
    ReadTree(i.tree, i.after + rest);
  }

  lemma {:induction false} ReadItems(items: Items, rest: string)
    requires ItemsGood(items)
    ensures ParseElements(ItemsText(items) + ("]" + rest))
         == if ItemsUnique(items) then Done(ItemsMeaning(items), rest) else Fail
    decreases items, 1
  {
    hide ParseValue, SkipSpace, ItemText;
    var body := ItemsText(items) + ("]" + rest);
    var i := items.item;
    var after := if items.One? then "]" + rest else "," + (ItemsText(items.rest) + ("]" + rest));
    assert body == ItemText(i) + after;
    ReadItem(i, after);
    if items.One? {
      assert after[1..] == rest && [Meaning(i.tree)] + [] == [Meaning(i.tree)];
    } else {
      assert after[1..] == ItemsText(items.rest) + ("]" + rest);
      ReadItems(items.rest, rest);
    }
  }

  // ---- Objects ----

  /** The keys are new and all different. */
  predicate Apart(ks: seq<string>, acc: map<string, Value>) { Distinct(ks) && forall k | k in ks :: k !in acc }

  lemma ApartNext(k: string, ks: seq<string>, acc: map<string, Value>, v: Value)
    ensures Apart([k] + ks, acc) <==> k !in acc && Apart(ks, acc[k := v])
  {
    var all := [k] + ks;
    if Apart(all, acc) {
      assert all[0] in all;
      forall i, j | 0 <= i < j < |ks| ensures ks[i] != ks[j] { assert all[i + 1] != all[j + 1]; }
      forall x | x in ks ensures x !in acc[k := v] {
        var i :| 0 <= i < |ks| && ks[i] == x;
        assert all[0] != all[i + 1] && all[i + 1] in all;
      }
    } else if k !in acc && Apart(ks, acc[k := v]) {
      forall i, j | 0 <= i < j < |all| ensures all[i] != all[j] {
        if i == 0 { assert all[j] == ks[j - 1] && ks[j - 1] in ks; } else { assert ks[i - 1] != ks[j - 1]; }
      }
      assert false;
    }
  }

  lemma MemberShape(m: Member, rest: string)
    ensures MemberText(m) + rest
         == m.before + ("\"" + (SpellingsText(m.key) + "\"" + (m.between + (":" + (ItemText(m.item) + rest)))))
  {
    hide ItemText, SpellingsText;
  }

  lemma ReadKey(key: seq<Spelling>, between: string, s: string, acc: map<string, Value>)
    requires SpellingsGood(key) && Blank(between)
    ensures ParseMembers("\"" + (SpellingsText(key) + "\"" + (between + (":" + s))), acc) ==
      if Chars(key) in acc then Fail
      else match ParseValue(s)
        case Fail => Fail
        case Done(v, t) =>
          var u := SkipSpace(t);
          if u == "" then Fail
          else if u[0] == '}' then Done(acc[Chars(key) := v], u[1..])
          else if u[0] == ',' then ParseMembers(u[1..], acc[Chars(key) := v])
          else Fail
  {
    hide ParseValue, ParseChars, SpellingsText, SpellingsGood;
    var t := "\"" + (SpellingsText(key) + "\"" + (between + (":" + s)));
    SkipNothing(t);
    assert t[1..] == SpellingsText(key) + "\"" + (between + (":" + s));
    ReadSpellings(key, between + (":" + s));
    AtMark(between, ":" + s);
    assert (":" + s)[1..] == s;
  }

  lemma {:induction false} ReadMember1(m: Member, rest: string, acc: map<string, Value>)
    requires Blank(m.before) && SpellingsGood(m.key) && Blank(m.between) && Spaced(m.item) && Good(m.item.tree)
    requires rest != "" && (rest[0] == '}' || rest[0] == ',')
    ensures ParseMembers(MemberText(m) + rest, acc) ==
      if Chars(m.key) in acc || !Unique(m.item.tree) then Fail
      else if rest[0] == '}' then Done(acc[Chars(m.key) := Meaning(m.item.tree)], rest[1..])
      else ParseMembers(rest[1..], acc[Chars(m.key) := Meaning(m.item.tree)])
    decreases m, 3
  {
    hide ParseValue, ParseMembers, SkipSpace, ItemText, MemberText, SpellingsText, SpellingsGood, Blank, Good;
    MemberShape(m, rest);
    var s := ItemText(m.item) + rest;
    BlankFirst(m.before, "\"" + (SpellingsText(m.key) + "\"" + (m.between + (":" + s))), acc);
    ReadKey(m.key, m.between, s, acc);
    ReadItem(m.item, rest);
  }

  lemma {:induction false} ReadMembers(ms: Members, acc: map<string, Value>, rest: string)
    requires MembersGood(ms)
    ensures ParseMembers(MembersText(ms) + ("}" + rest), acc)
         == if Apart(Keys(ms), acc) && MembersUnique(ms) then Done(acc + MembersMeaning(ms), rest) else Fail
    decreases ms, 1
  {
    var m := ms.member;
    var k, v := Chars(m.key), Meaning(m.item.tree);
    hide ParseMembers, MemberText, MembersText, Apart, Chars, Blank, SpellingsGood;
    var after := if ms.Last? then "}" + rest else "," + (MembersText(ms.others) + ("}" + rest));
    MembersShape(ms, rest);
    ReadMember1(m, after, acc);
    if ms.Last? {
      assert after[1..] == rest;
      ApartNext(k, [], acc, v);
      NoKeys(acc[k := v]);
      assert Keys(ms) == [k] + [];
      MergeNext(acc, k, v, map[]);
    } else {
      assert after[1..] == MembersText(ms.others) + ("}" + rest);
      ApartNext(k, Keys(ms.others), acc, v);
      ReadMembers(ms.others, acc[k := v], rest);
      MergeNext(acc, k, v, MembersMeaning(ms.others));
    }
  }

  /** Adding a member and then the others is adding them all. */
  lemma MergeNext(acc: map<string, Value>, k: string, v: Value, others: map<string, Value>)
    ensures acc[k := v] + others == acc + (map[k := v] + others) && acc[k := v] == acc + map[k := v]
  {
  }

  lemma MembersShape(ms: Members, rest: string)
    ensures MembersText(ms) + ("}" + rest)
         == MemberText(ms.member) + if ms.Last? then "}" + rest else "," + (MembersText(ms.others) + ("}" + rest))
  {
    hide MemberText;
  }

  lemma NoKeys(acc: map<string, Value>)
    ensures Apart([], acc)
  {
  }

  lemma MemberOpens(ms: Members, rest: string)
    requires MembersGood(ms)
    ensures var u := SkipSpace(MembersText(ms) + ("}" + rest)); u != "" && u[0] == '"'
  {
    hide MembersText, MemberText, SpellingsText, ItemText, SkipSpace, Chars;
    var m := ms.member;
    MembersShape(ms, rest);
    var more := if ms.Last? then "}" + rest else "," + (MembersText(ms.others) + ("}" + rest));
    MemberShape(m, more);
    AtMark(m.before, "\"" + (SpellingsText(m.key) + "\"" + (m.between + (":" + (ItemText(m.item) + more)))));
  }

  lemma {:induction false} ReadObjectTree(ms: Members, rest: string)
    requires MembersGood(ms)
    ensures ParseValue(Text(Object(ms)) + rest) == Answer(Object(ms), rest)
    decreases ms, 2
  {
    hide ParseValue, SkipSpace, ParseMembers, MembersText, Apart;
    var body := MembersText(ms) + ("}" + rest);
    assert Text(Object(ms)) + rest == "{" + body;
    MemberOpens(ms, rest);
    ReadBraces(body);
    ReadMembers(ms, map[], rest);
    NothingBefore(ms);
  }

  lemma NothingBefore(ms: Members)
    requires MembersGood(ms)
    ensures map[] + MembersMeaning(ms) == MembersMeaning(ms) && Apart(Keys(ms), map[]) == Distinct(Keys(ms))
  {
  }

  // ---- Whatever is read is a text of the grammar ----

  /** The tree is grammatical, has no repeated keys and means v. */
  predicate Gives(t: Tree, v: Value) { Good(t) && Unique(t) && Meaning(t) == v }

  lemma ReadScalar(u: string)
    requires u != "" && !IsSpace(u[0]) && u[0] != '{' && u[0] != '['
    ensures ParseValue(u) ==
      if u[0] == '"' then match ParseChars(u[1..]) case Fail => Fail case Done(str, rest) => Done(Str(str), rest)
      else if |u| >= 4 && u[..4] == "null" then Done(Null, u[4..])
      else if |u| >= 4 && u[..4] == "true" then Done(Bool(true), u[4..])
      else if |u| >= 5 && u[..5] == "false" then Done(Bool(false), u[5..])
      else match ParseNumber(u) case Fail => Fail case Done(lit, rest) => Done(Num(lit), rest)
  {
    SkipNothing(u);
    hide ParseNumber, ParseMembers, ParseElements, ParseChars, SkipSpace;
  }

  lemma WordOf(u: string) returns (t: Tree)
    requires u != "" && !IsSpace(u[0]) && u[0] != '{' && u[0] != '[' && u[0] != '"' && ParseValue(u).Done?
    ensures Gives(t, ParseValue(u).v) && u == Text(t) + ParseValue(u).rest
  {
    hide ParseValue, ParseNumber, NumberText, NumeralGood;
    ReadScalar(u);
    if |u| >= 4 && u[..4] == "null" {
      t := NullWord;
    } else if |u| >= 4 && u[..4] == "true" {
      t := BoolWord(true);
    } else if |u| >= 5 && u[..5] == "false" {
      t := BoolWord(false);
    } else {
      var n := NumeralOf(u);
      t := Number(n);
    }
  }

  lemma StringOf(u: string) returns (t: Tree)
    requires u != "" && u[0] == '"' && ParseValue(u).Done?
    ensures Gives(t, ParseValue(u).v) && u == Text(t) + ParseValue(u).rest
  {
    ReadScalar(u);
    hide ParseValue, ParseChars, QuotedText, SpellingGood, Chars, SkipSpace, ParseNumber;
    var cs := SpellingsOf(u[1..]);
    t := Quoted(cs);
    QuotedShape(cs, ParseChars(u[1..]).rest);
    assert u == "\"" + u[1..];
  }

  lemma QuotedShape(cs: seq<Spelling>, rest: string)
    ensures QuotedText(cs) + rest == "\"" + (SpellingsText(cs) + "\"" + rest)
  {
    hide SpellingsText;
  }

  lemma {:induction false} TreeAt(u: string) returns (t: Tree)
    requires u != "" && !IsSpace(u[0]) && ParseValue(u).Done?
    ensures Gives(t, ParseValue(u).v) && u == Text(t) + ParseValue(u).rest
    decreases |u|, 1
  {
    hide ParseValue, ParseElements, ParseMembers, Text, Gives, SkipSpace;
    if u[0] == '[' {
      t := ArrayOf(u);
    } else if u[0] == '{' {
      t := ObjectOf(u);
    } else if u[0] == '"' {
      t := StringOf(u);
    } else {
      t := WordOf(u);
    }
  }

  lemma {:induction false} ArrayOf(u: string) returns (t: Tree)
    requires u != "" && u[0] == '[' && ParseValue(u).Done?
    ensures Gives(t, ParseValue(u).v) && u == Text(t) + ParseValue(u).rest
    decreases |u|, 0
  {
    hide ParseValue, ParseElements, SkipSpace;
    var body := u[1..];
    assert u == "[" + body;
    ReadBrackets(body);
    var w := SkipSpace(body);
    if w != "" && w[0] == ']' {
      var space := Skipped(body);
      t := EmptyArray(space);
      assert w == "]" + w[1..];
    } else {
      var items := ItemsOf(body);
      t := Array(items);
    }
  }

  lemma {:induction false} ObjectOf(u: string) returns (t: Tree)
    requires u != "" && u[0] == '{' && ParseValue(u).Done?
    ensures Gives(t, ParseValue(u).v) && u == Text(t) + ParseValue(u).rest
    decreases |u|, 0
  {
    hide ParseValue, ParseMembers, SkipSpace;
    var body := u[1..];
    assert u == "{" + body;
    ReadBraces(body);
    var w := SkipSpace(body);
    if w != "" && w[0] == '}' {
      var space := Skipped(body);
      t := EmptyObject(space);
      assert w == "}" + w[1..];
    } else {
      var ms := MembersOf(body, map[]);
      t := Object(ms);
      NothingBefore(ms);
      hide MembersText, Apart;
    }
  }

  /** A value with the white space before and after it. */
  lemma {:induction false} ItemOf(s: string) returns (i: Item)
    requires ParseValue(s).Done?
    ensures Spaced(i) && Gives(i.tree, ParseValue(s).v) && s == ItemText(i) + SkipSpace(ParseValue(s).rest)
    decreases |s|, 2
  {
    hide ParseValue, Text, Gives, SkipSpace, Blank;
    var u := SkipSpace(s);
    NotBlank(s);
    var before := Skipped(s);
    BlankFirst(before, u, map[]);
    var t := TreeAt(u);
    var after := Skipped(ParseValue(s).rest);
    i := Item(before, t, after);
    Around(before, Text(t), after, SkipSpace(ParseValue(s).rest));
  }

  lemma NotBlank(s: string)
    requires ParseValue(s).Done?
    ensures SkipSpace(s) != "" && |SkipSpace(s)| <= |s|
  {
    hide ParseNumber, ParseMembers, ParseElements, ParseChars;
  }

  lemma Around(a: string, b: string, c: string, d: string)
    ensures a + (b + (c + d)) == a + b + c + d
  {
  }

  lemma {:induction false} ItemsOf(s: string) returns (items: Items)
    requires ParseElements(s).Done?
    ensures ItemsGood(items) && ItemsUnique(items) && ItemsMeaning(items) == ParseElements(s).v
    ensures s == ItemsText(items) + ("]" + ParseElements(s).rest)
    decreases |s|, 3
  {
    hide ParseValue, ItemText, SkipSpace;
    var i := ItemOf(s);
    var u := SkipSpace(ParseValue(s).rest);
    if u[0] == ']' {
      items := One(i);
      assert u == "]" + u[1..] && [Meaning(i.tree)] + [] == [Meaning(i.tree)];
    } else {
      ShorterRest(s);
      var rest := ItemsOf(u[1..]);
      items := More(i, rest);
      assert u == "," + u[1..];
    }
  }

  lemma ShorterRest(s: string)
    requires ParseValue(s).Done?
    ensures |SkipSpace(ParseValue(s).rest)| < |s|
  {
    hide ParseValue;
  }

  /** The key of a member, its colon and its value. */
  lemma {:induction false} MemberOf(s: string, acc: map<string, Value>) returns (m: Member, rest: string)
    requires ParseMembers(s, acc).Done?
    ensures Blank(m.before) && SpellingsGood(m.key) && Blank(m.between) && Spaced(m.item) && Good(m.item.tree)
    ensures Unique(m.item.tree) && Chars(m.key) !in acc && s == MemberText(m) + rest && |rest| < |s|
    ensures var next := acc[Chars(m.key) := Meaning(m.item.tree)];
            && rest != "" && (rest[0] == '}' || rest[0] == ',')
            && ParseMembers(s, acc) == if rest[0] == '}' then Done(next, rest[1..]) else ParseMembers(rest[1..], next)
    decreases |s|, 3
  {
    hide ParseValue, ParseChars, SkipSpace, ParseMembers, Blank;
    MemberParts(s, acc);
    var t := SkipSpace(s);
    var t1 := ParseChars(t[1..]).rest;
    var t2 := SkipSpace(t1);
    var before := Skipped(s);
    var between := Skipped(t1);
    var key := SpellingsOf(t[1..]);
    var i := ItemOf(t2[1..]);
    ShorterRest(t2[1..]);
    rest := SkipSpace(ParseValue(t2[1..]).rest);
    m := Member(before, key, between, i);
    MemberShape(m, rest);
    hide MemberText, ItemText, SpellingsText, Unique, Meaning, Good, Chars, SpellingsGood;
    assert t == "\"" + t[1..] && t2 == ":" + t2[1..];
  }

  lemma MemberParts(s: string, acc: map<string, Value>)
    requires ParseMembers(s, acc).Done?
    ensures var t := SkipSpace(s);
            && t != "" && |t| <= |s| && t[0] == '"' && ParseChars(t[1..]).Done? && ParseChars(t[1..]).v !in acc
            && var t2 := SkipSpace(ParseChars(t[1..]).rest);
               && t2 != "" && |t2| < |s| && t2[0] == ':' && ParseValue(t2[1..]).Done?
               && var next := acc[ParseChars(t[1..]).v := ParseValue(t2[1..]).v];
                  var u := SkipSpace(ParseValue(t2[1..]).rest);
                  && u != "" && (u[0] == '}' || u[0] == ',')
                  && ParseMembers(s, acc) == if u[0] == '}' then Done(next, u[1..]) else ParseMembers(u[1..], next)
  {
    hide ParseValue, ParseChars, SkipSpace;
  }

  lemma {:induction false} MembersOf(s: string, acc: map<string, Value>) returns (ms: Members)
    requires ParseMembers(s, acc).Done?
    ensures MembersGood(ms) && MembersUnique(ms) && Apart(Keys(ms), acc)
    ensures ParseMembers(s, acc).v == acc + MembersMeaning(ms)
    ensures s == MembersText(ms) + ("}" + ParseMembers(s, acc).rest)
    decreases |s|, 4
  {
    hide ParseMembers, MemberText, MembersText, Apart, Chars, Blank;
    var m, rest := MemberOf(s, acc);
    var k, v := Chars(m.key), Meaning(m.item.tree);
    if rest[0] == '}' {
      ms := Last(m);
      assert rest == "}" + rest[1..] && Keys(ms) == [k] + [];
      ApartNext(k, [], acc, v);
      NoKeys(acc[k := v]);
      MergeNext(acc, k, v, map[]);
      MembersShape(ms, rest[1..]);
    } else {
      var others := MembersOf(rest[1..], acc[k := v]);
      ms := Next(m, others);
      assert rest == "," + rest[1..];
      ApartNext(k, Keys(others), acc, v);
      MergeNext(acc, k, v, MembersMeaning(others));
      MembersShape(ms, ParseMembers(s, acc).rest);
    }
  }

  // ---- Documents ----

  /** A grammatical document is read as its meaning, and refused exactly when an object in it repeats a key. */
  lemma ReadsDocument(i: Item)
    requires Spaced(i) && Good(i.tree)
    ensures ParseDocument(ItemText(i)) == if Unique(i.tree) then Some(Meaning(i.tree)) else None
  {
    hide ParseValue, ItemText;
    ReadItem(i, "");
    assert ItemText(i) + "" == ItemText(i);
  }

  /** The reader accepts exactly the texts of the grammar without repeated keys, as the values they spell. */
  lemma ReadsExactly(s: string, v: Value)
    ensures ParseDocument(s) == Some(v) <==> Spells(s, v)
  {
    hide ParseValue, ItemText;
    if ParseDocument(s) == Some(v) {
      var i := ItemOf(s);
      assert ItemText(i) + "" == ItemText(i);
      assert ItemText(i) == s;
    }
    if Spells(s, v) {
      var i: Item :| Spaced(i) && Good(i.tree) && Unique(i.tree) && ItemText(i) == s && Meaning(i.tree) == v;
      ReadsDocument(i);
    }
  }
}
