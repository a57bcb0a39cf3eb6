/**
 Strict reading of whole documents against the grammar: ParseStrict accepts
 exactly the UTF-8 of grammatical texts without repeated keys and without
 surrogate escapes outside a pair, as the values they spell.
 */
module StrictDocuments {
  import opened Base
  import opened Json
  import opened JsonGrammar
  import opened Surrogates
  import Documents
  import JsonExact
  import Utf8

  // ---- No surrogate escape outside a pair ----

  predicate NoLone(cs: seq<Spelling>) { forall i | 0 <= i < |cs| :: !cs[i].Lone? }

  predicate AllPairs(t: Tree) {
    match t
    case Quoted(cs) => NoLone(cs)
    case Array(items) => ItemsPairs(items)
    case Object(members) => MembersPairs(members)
    case _ => true
  }

  predicate ItemsPairs(items: Items) { AllPairs(items.item.tree) && (items.More? ==> ItemsPairs(items.rest)) }

  predicate MembersPairs(ms: Members) {
    NoLone(ms.member.key) && AllPairs(ms.member.item.tree) && (ms.Next? ==> MembersPairs(ms.others))
  }

  /** The bytes spell the value v without lone surrogates. */
  ghost predicate SpellsStrictly(data: bytes, v: Value) {
    exists i: Item ::
      && Spaced(i) && Good(i.tree) && Unique(i.tree) && AllPairs(i.tree)
      && Utf8.Encode(ItemText(i)) == data && Meaning(i.tree) == v
  }

  // ---- The scanner over one literal ----

  lemma HexDigitByte(c: char, d: int)
    requires HexDigit(c, d)
    ensures (c as int) < 0x80 && HexByte(c as int) == Some(d)
  {
    JsonExact.HexDigitVal(c, d);
  }

  lemma FourBytes(hex: string, v: int, rest: bytes)
    requires Names(hex, v)
    ensures |Utf8.Encode(hex)| == 4 && (forall i | 0 <= i < 4 :: Utf8.Encode(hex)[i] == hex[i] as int)
    ensures HexValue(Utf8.Encode(hex) + rest) == Some(v)
  {
    HexDigitByte(hex[0], v / 16 / 16 / 16);
    HexDigitByte(hex[1], v / 16 / 16 % 16);
    HexDigitByte(hex[2], v / 16 % 16);
    HexDigitByte(hex[3], v % 16);
    hide HexDigit, HexByte;
    Documents.AsciiEncode(hex);
    var d := Utf8.Encode(hex) + rest;
    assert d[0] == hex[0] as int && d[1] == hex[1] as int && d[2] == hex[2] as int && d[3] == hex[3] as int;
    hide Utf8.Encode;
    JsonExact.LastDigit(v / 16, v % 16, v);
    JsonExact.LastDigit(v / 16 / 16, v / 16 % 16, v / 16);
    JsonExact.LastDigit(v / 16 / 16 / 16, v / 16 / 16 % 16, v / 16 / 16);
  }

  /** The bytes d begin with the escape of v, and rest follows. */
  predicate Escapes(d: bytes, v: int, rest: bytes) {
    |d| >= 6 && d[0] == BACKSLASH && d[1] == LETTER_U && HexValue(d[2..]) == Some(v) && d[6..] == rest
  }

  lemma EscapeBytes(hex: string, v: int, rest: bytes)
    requires Names(hex, v)
    ensures Escapes(Utf8.Encode("\\u" + hex) + rest, v, rest)
  {
    hide Utf8.Encode, HexValue, Names;
    FourBytes(hex, v, rest);
    Documents.AsciiEncode("\\u");
    Utf8.EncodeConcat("\\u", hex);
    var d := Utf8.Encode("\\u" + hex) + rest;
    assert d[2..] == Utf8.Encode(hex) + rest;
  }

  /** What the bytes of a spelling in front of rest look like to the scanner. */
  predicate Begins(d: bytes, p: Spelling, rest: bytes) {
    match p
    case Plain(_) =>
      d != [] && d[0] != BACKSLASH && d[0] != QUOTE && Scan(d, true) == Scan(rest, true)
    case Short(_) => |d| >= 2 && d[0] == BACKSLASH && d[1] != LETTER_U && d[2..] == rest
    case Unit(v, _) => Escapes(d, v, rest)
    case Pair(v, _, low, _) => |d| >= 6 && Escapes(d, v, d[6..]) && Escapes(d[6..], low, rest)
    case Lone(v, _) => Escapes(d, v, rest)
  }

  lemma PlainBytes(c: char, rest: bytes)
    requires c != '"' && c != '\\'
    ensures Begins(Utf8.Encode([c]) + rest, Spelling.Plain(c), rest)
  {
    var b := Utf8.EncodeChar(c);
    assert [c][1..] == "";
    assert Utf8.Encode([c]) == b + [] == b;
    var d := b + rest;
    if c as int < 0x80 {
      assert d[1..] == rest;
    } else {
      Documents.SkipHighBytes(d, |b|);
      assert d[|b|..] == rest;
    }
  }

  lemma ShortBytes(letter: char, rest: bytes)
    requires letter in ESCAPES
    ensures Begins(Utf8.Encode(['\\', letter]) + rest, Short(letter), rest)
  {
    Documents.AsciiEncode(['\\', letter]);
    hide Utf8.Encode;
  }

  lemma SpellingBytes(p: Spelling, rest: bytes)
    requires SpellingGood(p)
    ensures Begins(Utf8.Encode(SpellingText(p)) + rest, p, rest)
  {
    hide Names, Escapes, Utf8.Encode;
    match p
    case Plain(c) => PlainBytes(c, rest);
    case Short(letter) => ShortBytes(letter, rest);
    case Unit(v, hex) => EscapeBytes(hex, v, rest);
    case Lone(v, hex) => EscapeBytes(hex, v, rest);
    case Pair(v, hex, low, lowHex) => PairBytes(v, hex, low, lowHex, rest);
  }

  lemma PairBytes(v: int, hex: string, low: int, lowHex: string, rest: bytes)
    requires Names(hex, v) && Names(lowHex, low)
    ensures Begins(Utf8.Encode("\\u" + hex + "\\u" + lowHex) + rest, Pair(v, hex, low, lowHex), rest)
  {
    hide Names, Utf8.Encode, HexValue;
    var second := Utf8.Encode("\\u" + lowHex) + rest;
    EscapeBytes(lowHex, low, rest);
    EscapeBytes(hex, v, second);
    Utf8.EncodeConcat("\\u" + hex, "\\u" + lowHex);
    assert "\\u" + hex + "\\u" + lowHex == "\\u" + hex + ("\\u" + lowHex);
    assert Utf8.Encode("\\u" + hex + "\\u" + lowHex) + rest == Utf8.Encode("\\u" + hex) + second;
  }

  /** The scanner passes a spelling, unless it is a lone surrogate with no low one after it. */
  lemma ScanSpelling(d: bytes, p: Spelling, rest: bytes)
    requires SpellingGood(p) && Begins(d, p, rest)
    requires p.Lone? && High(p.v) ==> !(exists low, more :: Escapes(rest, low, more) && Low(low))
    ensures Scan(d, true) == (!p.Lone? && Scan(rest, true))
  {
    hide HexValue, Names;
    match p
    case Plain(_) =>
    case Short(_) => Documents.ScanShortEscape(d);
    case Unit(v, _) => Documents.ScanUnicodeEscape(d, v);
    case Pair(v, _, low, _) => assert d[6..][2..] == d[8..] && d[6..][6..] == d[12..];
    case Lone(v, _) =>
      if High(v) && |d| >= 12 && HexValue(d[8..]).Some? {
        assert d[6..][2..] == d[8..];
        assert Escapes(rest, HexValue(d[8..]).value, rest[6..]) <==> rest[0] == BACKSLASH && rest[1] == LETTER_U;
      }
  }

  lemma NotLow(d: bytes, p: Spelling, rest: bytes)
    requires SpellingGood(p) && Begins(d, p, rest) && !(p.Lone? && Low(p.v))
    ensures !(exists low, more :: Escapes(d, low, more) && Low(low))
  {
    hide HexValue, Names;
  }

  lemma QuoteNotLow(rest: bytes)
    ensures !(exists low, more :: Escapes([QUOTE] + rest, low, more) && Low(low))
  {
    hide HexValue;
  }

  lemma {:induction false} ScanSpellings(cs: seq<Spelling>, rest: bytes)
    requires SpellingsGood(cs)
    ensures Scan(Utf8.Encode(SpellingsText(cs)) + ([QUOTE] + rest), true) == (NoLone(cs) && Scan(rest, false))
  {
    hide SpellingGood, Begins, Escapes, SpellingText, Utf8.Encode;
    var d := Utf8.Encode(SpellingsText(cs)) + ([QUOTE] + rest);
    if cs == [] {
      assert Utf8.Encode("") == [] by { Documents.AsciiEncode(""); }
      assert d == [QUOTE] + rest && d[1..] == rest;
    } else {
      var tail := Utf8.Encode(SpellingsText(cs[1..])) + ([QUOTE] + rest);
      Utf8.EncodeConcat(SpellingText(cs[0]), SpellingsText(cs[1..]));
      assert d == Utf8.Encode(SpellingText(cs[0])) + tail;
      JsonExact.TailGood(cs);
      ScanSpellings(cs[1..], rest);
      SpellingBytes(cs[0], tail);
      FirstNotLow(cs, rest);
      hide Scan;
      ScanSpelling(d, cs[0], tail);
      assert NoLone(cs) <==> !cs[0].Lone? && NoLone(cs[1..]) by { NoLoneFirst(cs); }
    }
  }

  lemma NoLoneFirst(cs: seq<Spelling>)
    requires cs != []
    ensures NoLone(cs) <==> !cs[0].Lone? && NoLone(cs[1..])
  {
    if !cs[0].Lone? && NoLone(cs[1..]) {
      forall i | 0 <= i < |cs| ensures !cs[i].Lone? { if i > 0 { assert cs[i] == cs[1..][i - 1]; } }
    }
  }

  /** After a lone high surrogate no low one follows: together they would be a pair. */
  lemma FirstNotLow(cs: seq<Spelling>, rest: bytes)
    requires SpellingsGood(cs) && cs != []
    ensures var tail := Utf8.Encode(SpellingsText(cs[1..])) + ([QUOTE] + rest);
            cs[0].Lone? && High(cs[0].v) ==> !(exists low, more :: Escapes(tail, low, more) && Low(low))
  {
    hide SpellingGood, Begins, Escapes, SpellingText, Utf8.Encode;
    var tail := Utf8.Encode(SpellingsText(cs[1..])) + ([QUOTE] + rest);
    JsonExact.TailGood(cs);
    if |cs| == 1 {
      assert Utf8.Encode("") == [] by { Documents.AsciiEncode(""); }
      assert tail == [QUOTE] + rest;
      QuoteNotLow(rest);
    } else {
      var more := Utf8.Encode(SpellingsText(cs[1..][1..])) + ([QUOTE] + rest);
      Utf8.EncodeConcat(SpellingText(cs[1]), SpellingsText(cs[1..][1..]));
      assert tail == Utf8.Encode(SpellingText(cs[1])) + more;
      SpellingBytes(cs[1], more);
      if cs[0].Lone? && High(cs[0].v) { NotLow(tail, cs[1], more); }
    }
  }

  // ---- The scanner over a document ----

  /** Scanning over t, outside any string, fails or leaves the scanner outside. */
  ghost predicate Scans(t: string, ok: bool) {
    forall rest: bytes :: Scan(Utf8.Encode(t) + rest, false) == (ok && Scan(rest, false))
  }

  lemma ScansConcat(a: string, okA: bool, b: string, okB: bool)
    requires Scans(a, okA) && Scans(b, okB)
    ensures Scans(a + b, okA && okB)
  {
    hide Scan;
    Utf8.EncodeConcat(a, b);
    forall rest: bytes ensures Scan(Utf8.Encode(a + b) + rest, false) == (okA && okB && Scan(rest, false)) {
      assert Utf8.Encode(a + b) + rest == Utf8.Encode(a) + (Utf8.Encode(b) + rest);
    }
  }

  lemma ScansPlain(s: string)
    requires forall i | 0 <= i < |s| :: s[i] as int < 0x80 && s[i] != '"'
    ensures Scans(s, true)
  {
    Documents.PassedPlain(s);
  }

  lemma ScansBlank(s: string)
    requires Blank(s)
    ensures Scans(s, true)
  {
    ScansPlain(s);
  }

  lemma ScansQuoted(cs: seq<Spelling>)
    requires SpellingsGood(cs)
    ensures Scans(QuotedText(cs), NoLone(cs))
  {
    hide Scan, Utf8.Encode, SpellingsText, SpellingsGood, NoLone;
    Utf8.EncodeConcat("\"" + SpellingsText(cs), "\"");
    Utf8.EncodeConcat("\"", SpellingsText(cs));
    assert Utf8.Encode("\"") == [QUOTE] by { Documents.AsciiEncode("\""); }
    forall rest: bytes ensures Scan(Utf8.Encode(QuotedText(cs)) + rest, false) == (NoLone(cs) && Scan(rest, false)) {
      var inside := Utf8.Encode(SpellingsText(cs)) + ([QUOTE] + rest);
      assert Utf8.Encode(QuotedText(cs)) + rest == [QUOTE] + inside;
      Documents.ScanOpenQuote(inside);
      ScanSpellings(cs, rest);
    }
  }

  lemma ScansNumber(n: Numeral)
    requires NumeralGood(n)
    ensures Scans(NumberText(n), true)
  {
    var w, f, x := WholeText(n), FractionText(n.fraction), ExponentText(n.exponent);
    ScansPlain(w);
    ScansPlain(f);
    ScansPlain(x);
    hide WholeText, FractionText, ExponentText, Scans;
    ScansConcat(w, true, f, true);
    ScansConcat(w + f, true, x, true);
  }

  lemma {:induction false} ScansTree(t: Tree)
    requires Good(t)
    ensures Scans(Text(t), AllPairs(t))
    decreases t, 1
  {
    hide Scans, QuotedText, NumberText, NumeralGood, Blank;
    match t
    case NullWord => ScansPlain("null");
    case BoolWord(b) => ScansPlain(if b then "true" else "false");
    case Number(n) => ScansNumber(n);
    case Quoted(cs) => ScansQuoted(cs);
    case EmptyArray(space) => ScansBlank(space); ScansBetween("[", space, true, "]");
    case EmptyObject(space) => ScansBlank(space); ScansBetween("{", space, true, "}");
    case Array(items) => ScansItems(items); ScansBetween("[", ItemsText(items), ItemsPairs(items), "]");
    case Object(ms) => ScansMembers(ms); ScansBetween("{", MembersText(ms), MembersPairs(ms), "}");
  }

  lemma ScansBetween(open: string, s: string, ok: bool, close: string)
    requires Scans(s, ok)
    requires (open == "[" && close == "]") || (open == "{" && close == "}")
    ensures Scans(open + s + close, ok)
  {
    ScansPlain(open);
    ScansPlain(close);
    hide Scans;
    ScansConcat(open, true, s, ok);
    ScansConcat(open + s, ok, close, true);
  }

  lemma {:induction false} ScansItem(i: Item)
    requires Spaced(i) && Good(i.tree)
    ensures Scans(ItemText(i), AllPairs(i.tree))
    decreases i, 2
  {
    hide Scans, Text, Blank;
    ScansBlank(i.before);
    ScansBlank(i.after);
    ScansTree(i.tree);
    ScansConcat(i.before, true, Text(i.tree), AllPairs(i.tree));
    ScansConcat(i.before + Text(i.tree), AllPairs(i.tree), i.after, true);
  }

  lemma {:induction false} ScansItems(items: Items)
    requires ItemsGood(items)
    ensures Scans(ItemsText(items), ItemsPairs(items))
    decreases items, 1
  {
    hide Scans, ItemText;
    var i := items.item;
    ScansItem(i);
    if items.More? {
      ScansItems(items.rest);
      ScansPlain(",");
      ScansConcat(ItemText(i), AllPairs(i.tree), ",", true);
      ScansConcat(ItemText(i) + ",", AllPairs(i.tree), ItemsText(items.rest), ItemsPairs(items.rest));
    }
  }

  lemma {:induction false} ScansMember(m: Member)
    requires Blank(m.before) && SpellingsGood(m.key) && Blank(m.between) && Spaced(m.item) && Good(m.item.tree)
    ensures Scans(MemberText(m), NoLone(m.key) && AllPairs(m.item.tree))
    decreases m, 3
  {
    hide Scans, ItemText, QuotedText, Blank, NoLone;
    var k, ok := QuotedText(m.key), NoLone(m.key);
    ScansBlank(m.before);
    ScansBlank(m.between);
    ScansQuoted(m.key);
    ScansPlain(":");
    ScansItem(m.item);
    ScansConcat(m.before, true, k, ok);
    ScansConcat(m.before + k, ok, m.between, true);
    ScansConcat(m.before + k + m.between, ok, ":", true);
    ScansConcat(m.before + k + m.between + ":", ok, ItemText(m.item), AllPairs(m.item.tree));
  }

  lemma {:induction false} ScansMembers(ms: Members)
    requires MembersGood(ms)
    ensures Scans(MembersText(ms), MembersPairs(ms))
    decreases ms, 1
  {
    hide Scans, MemberText, NoLone, Blank;
    var m := ms.member;
    ScansMember(m);
    var ok := NoLone(m.key) && AllPairs(m.item.tree);
    if ms.Next? {
      ScansMembers(ms.others);
      ScansPlain(",");
      ScansConcat(MemberText(m), ok, ",", true);
      ScansConcat(MemberText(m) + ",", ok, MembersText(ms.others), MembersPairs(ms.others));
    }
  }

  lemma ScanItem(i: Item)
    requires Spaced(i) && Good(i.tree)
    ensures Scan(Utf8.Encode(ItemText(i)), false) == AllPairs(i.tree)
  {
    ScansItem(i);
    Documents.ScanNothing();
    hide Scan, ItemText;
    assert Utf8.Encode(ItemText(i)) + [] == Utf8.Encode(ItemText(i));
  }

  // ---- Whole documents ----

  /** A grammatical document is refused exactly for a repeated key or a lone surrogate, and else read as its meaning. */
  lemma StrictReadsDocument(i: Item)
    requires Spaced(i) && Good(i.tree)
    ensures Documents.ParseStrict(Utf8.Encode(ItemText(i)))
         == if Unique(i.tree) && AllPairs(i.tree) then Some(Meaning(i.tree)) else None
  {
    hide Scan, ParseDocument, ItemText;
    Utf8.RunesOfEncode(ItemText(i));
    ScanItem(i);
    JsonExact.ReadsDocument(i);
  }

  /** ParseStrict accepts exactly what the grammar and the rules on keys and surrogates allow. */
  lemma StrictReadsExactly(data: bytes, v: Value)
    ensures Documents.ParseStrict(data) == Some(v) <==> SpellsStrictly(data, v)
  {
    hide Scan, ParseDocument, ItemText;
    if Documents.ParseStrict(data) == Some(v) {
      JsonExact.ReadsExactly(Utf8.Runes(data), v);
      Utf8.EncodeOfRunes(data);
      var i: Item :| Spaced(i) && Good(i.tree) && Unique(i.tree)
        && ItemText(i) == Utf8.Runes(data) && Meaning(i.tree) == v;
      ScanItem(i);
    }
    if SpellsStrictly(data, v) {
      var i: Item :| && Spaced(i) && Good(i.tree) && Unique(i.tree) && AllPairs(i.tree)
                     && Utf8.Encode(ItemText(i)) == data && Meaning(i.tree) == v;
      StrictReadsDocument(i);
    }
  }
}
