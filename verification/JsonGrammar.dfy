/**
 The grammar of RFC 8259 as syntax trees: what a text may look like, white space
 and the spelling of every character included, and what it means. The reader of
 `Json` accepts exactly the texts of trees without repeated keys, with their
 meaning.
 */
module JsonGrammar {
  import opened Base
  import opened Json
  import Utf8

  /** A character of a string literal as it is written (section 7). */
  datatype Spelling =
    | Plain(c: char)
    | Short(letter: char)                                // a backslash and one of "\/bfnrt
    | Unit(v: int, hex: string)                          // \u and four hex digits
    | Pair(v: int, hex: string, low: int, lowHex: string) // the two surrogates of one character
    | Lone(v: int, hex: string)                          // a surrogate that is not part of a pair

  /** A number as it is written (section 6). */
  datatype Numeral = Numeral(minus: bool, whole: string, fraction: Option<string>, exponent: Option<Exponent>)

  datatype Exponent = Exponent(e: char, sign: string, digits: string)

  datatype Tree =
    | NullWord
    | BoolWord(b: bool)
    | Number(n: Numeral)
    | Quoted(cs: seq<Spelling>)
    | EmptyArray(space: string)
    | Array(items: Items)
    | EmptyObject(space: string)
    | Object(members: Members)

  /** A value with the white space around it. */
  datatype Item = Item(before: string, tree: Tree, after: string)

  datatype Items = One(item: Item) | More(item: Item, rest: Items)

  datatype Member = Member(before: string, key: seq<Spelling>, between: string, item: Item)

  datatype Members = Last(member: Member) | Next(member: Member, others: Members)

  // ---- What is written ----

  function SpellingText(p: Spelling): string {
    match p
    case Plain(c) => [c]
    case Short(letter) => ['\\', letter]
    case Unit(_, hex) => "\\u" + hex
    case Pair(_, hex, _, lowHex) => "\\u" + hex + "\\u" + lowHex
    case Lone(_, hex) => "\\u" + hex
  }

  function SpellingsText(cs: seq<Spelling>): string {
    if cs == [] then "" else SpellingText(cs[0]) + SpellingsText(cs[1..])
  }

  function QuotedText(cs: seq<Spelling>): string { "\"" + SpellingsText(cs) + "\"" }

  function FractionText(f: Option<string>): string { if f.None? then "" else "." + f.value }

  function ExponentText(e: Option<Exponent>): string {
    if e.None? then "" else [e.value.e] + e.value.sign + e.value.digits
  }

  function WholeText(n: Numeral): string { (if n.minus then "-" else "") + n.whole }

  function NumberText(n: Numeral): string { WholeText(n) + FractionText(n.fraction) + ExponentText(n.exponent) }

  function Text(t: Tree): string {
    match t
    case NullWord => "null"
    case BoolWord(b) => if b then "true" else "false"
    case Number(n) => NumberText(n)
    case Quoted(cs) => QuotedText(cs)
    case EmptyArray(space) => "[" + space + "]"
    case Array(items) => "[" + ItemsText(items) + "]"
    case EmptyObject(space) => "{" + space + "}"
    case Object(members) => "{" + MembersText(members) + "}"
  }

  function ItemText(i: Item): string { i.before + Text(i.tree) + i.after }

  function ItemsText(items: Items): string {
    match items
    case One(i) => ItemText(i)
    case More(i, rest) => ItemText(i) + "," + ItemsText(rest)
  }

  function MemberText(m: Member): string { m.before + QuotedText(m.key) + m.between + ":" + ItemText(m.item) }

  function MembersText(ms: Members): string {
    match ms
    case Last(m) => MemberText(m)
    case Next(m, others) => MemberText(m) + "," + MembersText(others)
  }

  // ---- What may be written ----

  predicate Blank(s: string) { forall i | 0 <= i < |s| :: s[i] in " \t\n\r" }

  predicate Digits(s: string) { s != "" && forall i | 0 <= i < |s| :: '0' <= s[i] <= '9' }

  /** A hex digit of either case. */
  predicate HexDigit(c: char, d: int) {
    0 <= d < 16 && (c == "0123456789abcdef"[d] || c == "0123456789ABCDEF"[d])
  }

  /** Four hex digits that name the number v. */
  predicate Names(hex: string, v: int) {
    && |hex| == 4
    && HexDigit(hex[0], v / 16 / 16 / 16) && HexDigit(hex[1], v / 16 / 16 % 16)
    && HexDigit(hex[2], v / 16 % 16) && HexDigit(hex[3], v % 16)
  }

  predicate High(v: int) { 0xD800 <= v <= 0xDBFF }
  predicate Low(v: int) { 0xDC00 <= v <= 0xDFFF }

  const ESCAPES := map['"' := '"', '\\' := '\\', '/' := '/', 'b' := '\U{8}', 'f' := '\U{C}',
                       'n' := '\U{A}', 'r' := '\U{D}', 't' := '\U{9}']

  predicate SpellingGood(p: Spelling) {
    match p
    case Plain(c) => c as int >= 0x20 && c != '"' && c != '\\'
    case Short(letter) => letter in ESCAPES
    case Unit(v, hex) => Names(hex, v) && !High(v) && !Low(v)
    case Pair(v, hex, low, lowHex) => Names(hex, v) && High(v) && Names(lowHex, low) && Low(low)
    case Lone(v, hex) => Names(hex, v) && (High(v) || Low(v))
  }

  predicate IsLone(cs: seq<Spelling>, i: int, high: bool) {
    0 <= i < |cs| && cs[i].Lone? && if high then High(cs[i].v) else Low(cs[i].v)
  }

  /** Neighbouring surrogates that make a pair are written as one. */
  predicate SpellingsGood(cs: seq<Spelling>) {
    && (forall i | 0 <= i < |cs| :: SpellingGood(cs[i]))
    && (forall i | 0 <= i < |cs| - 1 :: !(IsLone(cs, i, true) && IsLone(cs, i + 1, false)))
  }

  predicate NumeralGood(n: Numeral) {
    && Digits(n.whole) && (n.whole[0] == '0' ==> |n.whole| == 1)
    && (n.fraction.Some? ==> Digits(n.fraction.value))
    && (n.exponent.Some? ==>
          var e := n.exponent.value;
          (e.e == 'e' || e.e == 'E') && (e.sign == "" || e.sign == "+" || e.sign == "-") && Digits(e.digits))
  }

  predicate Good(t: Tree) {
    match t
    case NullWord => true
    case BoolWord(_) => true
    case Number(n) => NumeralGood(n)
    case Quoted(cs) => SpellingsGood(cs)
    case EmptyArray(space) => Blank(space)
    case Array(items) => ItemsGood(items)
    case EmptyObject(space) => Blank(space)
    case Object(members) => MembersGood(members)
  }

  predicate ItemsGood(items: Items) {
    Spaced(items.item) && Good(items.item.tree) && (items.More? ==> ItemsGood(items.rest))
  }

  predicate MembersGood(ms: Members) {
    && Blank(ms.member.before) && SpellingsGood(ms.member.key) && Blank(ms.member.between)
    && Spaced(ms.member.item) && Good(ms.member.item.tree)
    && (ms.Next? ==> MembersGood(ms.others))
  }

  predicate Spaced(i: Item) { Blank(i.before) && Blank(i.after) }

  // ---- What it means ----

  function SpellingChar(p: Spelling): char
    requires SpellingGood(p)
  {
    match p
    case Plain(c) => c
    case Short(letter) => ESCAPES[letter]
    case Unit(v, _) => v as char
    case Pair(v, _, low, _) => ((v - 0xD800) * 1024 + (low - 0xDC00) + 0x10000) as char
    case Lone(_, _) => Utf8.REPLACEMENT
  }

  function Chars(cs: seq<Spelling>): string
    requires forall i | 0 <= i < |cs| :: SpellingGood(cs[i])
  {
    if cs == [] then "" else [SpellingChar(cs[0])] + Chars(cs[1..])
  }

  /** The keys of an object in the order of its text. */
  function Keys(ms: Members): seq<string>
    requires MembersGood(ms)
  {
    [Chars(ms.member.key)] + if ms.Next? then Keys(ms.others) else []
  }

  predicate Distinct(ks: seq<string>) { forall i, j | 0 <= i < j < |ks| :: ks[i] != ks[j] }

  /** No object in the tree has two equal keys. */
  predicate Unique(t: Tree)
    requires Good(t)
  {
    match t
    case Array(items) => ItemsUnique(items)
    case Object(members) => Distinct(Keys(members)) && MembersUnique(members)
    case _ => true
  }

  predicate ItemsUnique(items: Items)
    requires ItemsGood(items)
  {
    Unique(items.item.tree) && (items.More? ==> ItemsUnique(items.rest))
  }

  predicate MembersUnique(ms: Members)
    requires MembersGood(ms)
  {
    Unique(ms.member.item.tree) && (ms.Next? ==> MembersUnique(ms.others))
  }

  function Meaning(t: Tree): Value
    requires Good(t)
  {
    match t
    case NullWord => Null
    case BoolWord(b) => Bool(b)
    case Number(n) => Num(NumberText(n))
    case Quoted(cs) => Str(Chars(cs))
    case EmptyArray(_) => Arr([])
    case Array(items) => Arr(ItemsMeaning(items))
    case EmptyObject(_) => Obj(map[])
    case Object(members) => Obj(MembersMeaning(members))
  }

  function ItemsMeaning(items: Items): seq<Value>
    requires ItemsGood(items)
  {
    [Meaning(items.item.tree)] + if items.More? then ItemsMeaning(items.rest) else []
  }

  function MembersMeaning(ms: Members): map<string, Value>
    requires MembersGood(ms)
  {
    var first := map[Chars(ms.member.key) := Meaning(ms.member.item.tree)];
    if ms.Next? then first + MembersMeaning(ms.others) else first
  }

  /** The text s spells the value v. */
  ghost predicate Spells(s: string, v: Value) {
    exists i: Item :: Spaced(i) && Good(i.tree) && Unique(i.tree) && ItemText(i) == s && Meaning(i.tree) == v
  }
}
