/**
 Canonicalisation never lengthens a document: each character's canonical
 spelling is no longer than any spelling the reader accepts, and sorting the
 members does not change their total size.
 */
module CanonicalSize {
  import opened Json
  import opened Order
  import opened Canonical
  import Utf8

  /** The size of a text in UTF-8 bytes. */
  function Size(s: string): nat {
    if s == "" then 0 else |Utf8.EncodeChar(s[0])| + Size(s[1..])
  }

  lemma {:induction false} SizeIsEncoded(s: string)
    ensures Size(s) == |Utf8.Encode(s)|
  {
    if s != "" { SizeIsEncoded(s[1..]); }
  }

  lemma SizeConcat(s: string, t: string)
    ensures Size(s + t) == Size(s) + Size(t)
  {
    SizeIsEncoded(s);
    SizeIsEncoded(t);
    SizeIsEncoded(s + t);
    Utf8.EncodeConcat(s, t);
  }

  /** Dropping n characters drops at least n bytes. */
  lemma {:induction false} SizeDrop(s: string, n: nat)
    requires n <= |s|
    ensures n + Size(s[n..]) <= Size(s)
  {
    hide Utf8.EncodeChar;
    if n == 0 {
      assert s[0..] == s;
    } else {
      SizeDrop(s[1..], n - 1);
      assert s[1..][n - 1..] == s[n..];
    }
  }

  lemma {:induction false} SkipShrinks(s: string)
    ensures Size(SkipSpace(s)) <= Size(s)
  {
    hide Utf8.EncodeChar;
    if s != "" && IsSpace(s[0]) { SkipShrinks(s[1..]); }
  }

  lemma EscapedSize(c: char)
    ensures Size(Escaped(c)) <= 6
    ensures c != '"' && c != '\\' && c >= ' ' ==> Size(Escaped(c)) == |Utf8.EncodeChar(c)|
    ensures c in {'"', '\\', '/', '\U{8}', '\U{C}', '\n', '\r', '\t'} ==> Size(Escaped(c)) <= 2
  {
    var e := Escaped(c);
    if |e| == 1 {
      assert Size(e) == |Utf8.EncodeChar(c)| + Size(e[1..]);
    } else {
      AsciiSize(e);
    }
  }

  lemma {:induction false} AsciiSize(s: string)
    requires forall i | 0 <= i < |s| :: s[i] as int < 0x80
    ensures Size(s) == |s|
  {
    if s != "" { AsciiSize(s[1..]); }
  }

  /** Every accepted spelling of a character is at least as long as its canonical one. */
  lemma CharShrinks(s: string)
    requires s != "" && s[0] != '"' && ParseChar(s).Done?
    ensures Size(Escaped(ParseChar(s).v)) + Size(ParseChar(s).rest) <= Size(s)
  {
    hide Size, Escaped;
    var c, rest := ParseChar(s).v, ParseChar(s).rest;
    EscapedSize(c);
    if s[0] != '\\' {
      assert Size(s) == |Utf8.EncodeChar(c)| + Size(rest) by { SizeHead(s); }
    } else if s[1] != 'u' {
      assert rest == s[2..];
      SizeDrop(s, 2);
    } else {
      UnicodeConsumes(s);
      SizeDrop(s, |s| - |rest|);
    }
  }

  lemma SizeHead(s: string)
    requires s != ""
    ensures Size(s) == |Utf8.EncodeChar(s[0])| + Size(s[1..])
  {
  }

  lemma UnicodeConsumes(s: string)
    requires |s| >= 2 && s[0] == '\\' && s[1] == 'u' && ParseChar(s).Done?
    ensures var rest := ParseChar(s).rest; |rest| + 6 <= |s| && rest == s[|s| - |rest|..]
  {
    hide Hex4;
    var u := s[1..][1..];
    assert u == s[2..];
    assert |u| >= 4 ==> u[4..] == s[6..];
    assert |u| >= 10 ==> u[10..] == s[12..];
  }

  lemma {:induction false} CharsShrink(s: string)
    requires ParseChars(s).Done?
    ensures Size(EscapedAll(ParseChars(s).v)) + 1 + Size(ParseChars(s).rest) <= Size(s)
    decreases |s|
  {
    hide ParseChar, Escaped, Size;
    if s[0] == '"' {
      SizeDrop(s, 1);
      assert Size("") == 0 by { SizeIsEncoded(""); }
    } else {
      var t := ParseChar(s).rest;
      CharShrinks(s);
      CharsShrink(t);
      var cs := ParseChars(t).v;
      assert ([ParseChar(s).v] + cs)[1..] == cs;
      SizeConcat(Escaped(ParseChar(s).v), EscapedAll(cs));
    }
  }

  lemma QuotedSize(s: string)
    ensures Size(Quoted(s)) == 2 + Size(EscapedAll(s))
  {
    hide EscapedAll;
    SizeConcat("\"" + EscapedAll(s), "\"");
    SizeConcat("\"", EscapedAll(s));
    AsciiSize("\"");
  }

  // ---- Arrays and objects ----

  /** The elements with one separator each. */
  ghost function ElementsSize(a: seq<Value>): nat {
    if a == [] then 0 else Size(Text(a[0])) + 1 + ElementsSize(a[1..])
  }

  ghost function MemberSize(k: string, v: Value): nat {
    Size(Quoted(k)) + 1 + Size(Text(v)) + 1
  }

  /** The listed members with one separator each. */
  ghost function MembersSize(m: map<string, Value>, ks: seq<string>): nat
    requires forall k | k in ks :: k in m
  {
    if ks == [] then 0 else MemberSize(ks[0], m[ks[0]]) + MembersSize(m, ks[1..])
  }

  ghost function MapSize(m: map<string, Value>): nat {
    MembersSize(m, Ascending(m.Keys))
  }

  lemma {:induction false} ElementsTextSize(v: Value, i: nat)
    requires v.Arr? && i <= |v.a|
    ensures Size(ElementsText(v, i)) + (if i == 0 && v.a != [] then 1 else 0) == ElementsSize(v.a[i..])
    decreases |v.a| - i
  {
    hide Text, Size;
    if i == |v.a| {
      assert v.a[i..] == [];
      AsciiSize("");
    } else {
      ElementsTextSize(v, i + 1);
      assert v.a[i..][1..] == v.a[i + 1..];
      var sep := if i > 0 then "," else "";
      AsciiSize(sep);
      SizeConcat(sep + Text(v.a[i]), ElementsText(v, i + 1));
      SizeConcat(sep, Text(v.a[i]));
    }
  }

  lemma {:induction false} MembersTextSize(v: Value, ks: seq<string>, i: nat)
    requires v.Obj? && i <= |ks| && forall k | k in ks :: k in v.m
    ensures Size(MembersText(v, ks, i)) + (if i == 0 && ks != [] then 1 else 0) == MembersSize(v.m, ks[i..])
    decreases |ks| - i
  {
    hide Text, Size, Quoted;
    if i == |ks| {
      assert ks[i..] == [];
      AsciiSize("");
    } else {
      MembersTextSize(v, ks, i + 1);
      assert ks[i..][1..] == ks[i + 1..];
      var sep := if i > 0 then "," else "";
      AsciiSize(sep);
      AsciiSize(":");
      SizeConcat(sep, Quoted(ks[i]));
      SizeConcat(sep + Quoted(ks[i]), ":");
      SizeConcat(sep + Quoted(ks[i]) + ":", Text(v.m[ks[i]]));
      SizeConcat(sep + Quoted(ks[i]) + ":" + Text(v.m[ks[i]]), MembersText(v, ks, i + 1));
    }
  }

  lemma ArrayTextSize(a: seq<Value>)
    ensures Size(Text(Arr(a))) == (if a == [] then 2 else 1 + ElementsSize(a))
  {
    hide Size, ElementsText;
    ElementsTextSize(Arr(a), 0);
    assert a[0..] == a;
    var body := ElementsText(Arr(a), 0);
    SizeConcat("[" + body, "]");
    SizeConcat("[", body);
    AsciiSize("[");
    AsciiSize("]");
  }

  lemma ObjectTextSize(m: map<string, Value>)
    ensures Size(Text(Obj(m))) == (if m == map[] then 2 else 1 + MapSize(m))
  {
    hide Size, MembersText;
    var ks := Ascending(m.Keys);
    MembersTextSize(Obj(m), ks, 0);
    assert ks[0..] == ks;
    var body := MembersText(Obj(m), ks, 0);
    SizeConcat("{" + body, "}");
    SizeConcat("{", body);
    AsciiSize("{");
    AsciiSize("}");
    assert m == map[] <==> ks == [] by {
      if ks == [] { assert forall k :: k !in m; }
      else { assert ks[0] in m; }
    }
  }

  lemma {:induction false} MembersSizeInsert(m: map<string, Value>, k: string, v: Value, ks: seq<string>)
    requires k !in m && forall x | x in ks :: x in m
    ensures forall x | x in Insert(k, ks) :: x in m[k := v]
    ensures MembersSize(m[k := v], Insert(k, ks)) == MemberSize(k, v) + MembersSize(m, ks)
    decreases |ks|
  {
    hide MemberSize, KeyLess;
    if ks == [] || KeyLess(k, ks[0]) {
      assert ([k] + ks)[1..] == ks;
      MembersSizeExtend(m, k, v, ks);
    } else {
      assert ks[0] in ks;
      assert forall x | x in ks[1..] :: x in ks;
      MembersSizeInsert(m, k, v, ks[1..]);
      assert ([ks[0]] + Insert(k, ks[1..]))[1..] == Insert(k, ks[1..]);
    }
  }

  lemma {:induction false} MembersSizeExtend(m: map<string, Value>, k: string, v: Value, ks: seq<string>)
    requires k !in m && forall x | x in ks :: x in m
    ensures MembersSize(m[k := v], ks) == MembersSize(m, ks)
    decreases |ks|
  {
    hide MemberSize;
    if ks != [] {
      assert ks[0] in ks;
      assert forall x | x in ks[1..] :: x in ks;
      MembersSizeExtend(m, k, v, ks[1..]);
    }
  }

  lemma MapSizeAdd(m: map<string, Value>, k: string, v: Value)
    requires k !in m
    ensures MapSize(m[k := v]) == MapSize(m) + MemberSize(k, v)
  {
    hide MemberSize;
    var ks := Ascending(m.Keys);
    MembersSizeInsert(m, k, v, ks);
    InsertSorted(k, ks, m.Keys);
    assert m[k := v].Keys == m.Keys + {k};
    SortedUnique(Insert(k, ks), Ascending(m[k := v].Keys), m[k := v].Keys);
  }

  // ---- The reader ----

  /** The canonical form of what was read is no longer than the text it was read from. */
  lemma {:induction false} ValueShrinks(s: string)
    requires ParseValue(s).Done?
    ensures Size(Text(ParseValue(s).v)) + Size(ParseValue(s).rest) <= Size(s)
    decreases |s|, 2
  {
    hide Size, Text, ParseElements, ParseMembers, ParseChars, ParseNumber;
    var t := SkipSpace(s);
    SkipShrinks(s);
    if t[0] == '{' {
      ObjectShrinks(s, t);
    } else if t[0] == '[' {
      ArrayShrinks(s, t);
    } else if t[0] == '"' {
      CharsShrink(t[1..]);
      SizeDrop(t, 1);
      StringTextSize(ParseChars(t[1..]).v);
    } else if ParseValue(s).v.Num? {
      var lit := ParseNumber(t).v;
      SizeConcat(lit, ParseNumber(t).rest);
      assert Text(Num(lit)) == lit by { NumText(lit); }
    } else {
      WordText(ParseValue(s).v);
      WordShrinks(t, ParseValue(s).v);
    }
  }

  lemma NumText(lit: string)
    ensures Text(Num(lit)) == lit
  {
  }

  lemma StringTextSize(s: string)
    ensures Size(Text(Str(s))) == 2 + Size(EscapedAll(s))
  {
    QuotedSize(s);
  }

  lemma WordText(v: Value)
    requires v.Null? || v.Bool?
    ensures |Text(v)| == if v == Bool(false) then 5 else 4
  {
  }

  lemma WordShrinks(t: string, v: Value)
    requires v.Null? || v.Bool?
    requires |t| >= |Text(v)|
    ensures Size(Text(v)) + Size(t[|Text(v)|..]) <= Size(t)
  {
    hide Size;
    AsciiSize(Text(v));
    SizeDrop(t, |Text(v)|);
  }

  lemma {:induction false} ArrayShrinks(s: string, t: string)
    requires t == SkipSpace(s) && t != "" && t[0] == '[' && ParseValue(s).Done?
    ensures Size(Text(ParseValue(s).v)) + Size(ParseValue(s).rest) <= Size(t)
    decreases |s|, 1
  {
    hide Size, Text, ParseElements;
    var u := SkipSpace(t[1..]);
    SizeDrop(t, 1);
    SkipShrinks(t[1..]);
    if u != "" && u[0] == ']' {
      ArrayTextSize([]);
      SizeDrop(u, 1);
    } else {
      ElementsShrink(t[1..]);
      ArrayTextSize(ParseElements(t[1..]).v);
    }
  }

  lemma {:induction false} ElementsShrink(s: string)
    requires ParseElements(s).Done?
    ensures ParseElements(s).v != []
    ensures ElementsSize(ParseElements(s).v) + Size(ParseElements(s).rest) <= Size(s)
    decreases |s|, 3
  {
    hide Size, Text, ParseValue;
    var v, t := ParseValue(s).v, ParseValue(s).rest;
    ValueShrinks(s);
    SkipShrinks(t);
    var u := SkipSpace(t);
    SizeDrop(u, 1);
    if u[0] == ',' {
      ElementsShrink(u[1..]);
      var vs := ParseElements(u[1..]).v;
      assert ([v] + vs)[1..] == vs;
    } else {
      assert [v][1..] == [];
    }
  }

  lemma {:induction false} ObjectShrinks(s: string, t: string)
    requires t == SkipSpace(s) && t != "" && t[0] == '{' && ParseValue(s).Done?
    ensures Size(Text(ParseValue(s).v)) + Size(ParseValue(s).rest) <= Size(t)
    decreases |s|, 1
  {
    hide Size, Text, ParseMembers, MapSize;
    var u := SkipSpace(t[1..]);
    SizeDrop(t, 1);
    SkipShrinks(t[1..]);
    if u != "" && u[0] == '}' {
      ObjectTextSize(map[]);
      SizeDrop(u, 1);
    } else {
      MembersShrink(t[1..], map[]);
      MapSizeEmpty();
      ObjectTextSize(ParseMembers(t[1..], map[]).v);
    }
  }

  lemma MapSizeEmpty()
    ensures MapSize(map[]) == 0
  {
    var e: map<string, Value> := map[];
    SortedUnique(Ascending(e.Keys), [], e.Keys);
  }

  lemma {:induction false} MembersShrink(s: string, acc: map<string, Value>)
    requires ParseMembers(s, acc).Done?
    ensures ParseMembers(s, acc).v != map[]
    ensures MapSize(ParseMembers(s, acc).v) + Size(ParseMembers(s, acc).rest) <= MapSize(acc) + Size(s)
    decreases |s|, 3
  {
    hide Size, Text, ParseValue, MapSize, ParseChars;
    var t := SkipSpace(s);
    SkipShrinks(s);
    SizeDrop(t, 1);
    var k, t1 := ParseChars(t[1..]).v, ParseChars(t[1..]).rest;
    CharsShrink(t[1..]);
    QuotedSize(k);
    var t2 := SkipSpace(t1);
    SkipShrinks(t1);
    SizeDrop(t2, 1);
    var v, t3 := ParseValue(t2[1..]).v, ParseValue(t2[1..]).rest;
    ValueShrinks(t2[1..]);
    var u := SkipSpace(t3);
    SkipShrinks(t3);
    SizeDrop(u, 1);
    MapSizeAdd(acc, k, v);
    assert k in acc[k := v];
    if u[0] == ',' { MembersShrink(u[1..], acc[k := v]); }
  }
}
