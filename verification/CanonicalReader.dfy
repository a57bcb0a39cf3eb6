/**
 Reading a canonical form back. The reader of `Json` undoes `Canonical.Text`
 on every accepted value, so the form is injective: a signature or hash over
 the text fixes the value.
 */
module CanonicalReader {
  import opened Base
  import opened Json
  import opened Canonical

  lemma ParseControl(c: char, rest: string)
    requires c < ' '
    ensures Hex4(['0', '0', HexDigit(c as int / 16), HexDigit(c as int % 16)] + rest) == Some(c as int)
  {
    assert c as int < 32;
    assert HexVal(HexDigit(c as int / 16)) == Some(c as int / 16);
    assert HexVal(HexDigit(c as int % 16)) == Some(c as int % 16);
  }

  lemma ParseEscaped(c: char, rest: string)
    ensures Escaped(c) != "" && Escaped(c)[0] != '"'
    ensures ParseChar(Escaped(c) + rest) == Done(c, rest)
  {
    hide HexDigit, Hex4;
    var t := Escaped(c) + rest;
    if |Escaped(c)| == 6 {
      var d := ['0', '0', HexDigit(c as int / 16), HexDigit(c as int % 16)];
      assert t[1..][1..] == d + rest;
      ParseControl(c, rest);
      assert (d + rest)[4..] == rest;
    } else if |Escaped(c)| == 2 {
      assert t[1..][1..] == rest;
    } else {
      assert t[1..] == rest;
    }
  }

  lemma {:induction false} ParseEscapedAll(s: string, rest: string)
    ensures ParseChars(EscapedAll(s) + "\"" + rest) == Done(s, rest)
  {
    var t := EscapedAll(s) + "\"" + rest;
    if s == "" {
      assert t == "\"" + rest;
      assert t[1..] == rest;
    } else {
      var u := EscapedAll(s[1..]) + "\"" + rest;
      assert t == Escaped(s[0]) + u;
      ParseEscaped(s[0], u);
      assert t[0] == Escaped(s[0])[0];
      ParseEscapedAll(s[1..], rest);
      assert s == [s[0]] + s[1..];
    }
  }

  /** What may follow a number without lengthening it. */
  predicate EndsNumber(rest: string) {
    rest == "" || !(IsDigit(rest[0]) || rest[0] == '.' || rest[0] == 'e' || rest[0] == 'E')
  }

  lemma {:induction false} DigitRunAll(d: string, rest: string)
    requires forall i | 0 <= i < |d| :: IsDigit(d[i])
    requires EndsNumber(rest)
    ensures DigitRun(d + rest) == |d|
  {
    if d == "" {
      assert d + rest == rest;
    } else {
      assert (d + rest)[1..] == d[1..] + rest;
      DigitRunAll(d[1..], rest);
    }
  }

  lemma UnsignedLengthOf(d: string, rest: string)
    requires d != "" && IntPattern(d) && d[0] != '-' && EndsNumber(rest)
    ensures IntegerLength(d + rest) == Some(|d|)
  {
    var t := d + rest;
    assert t[0] == d[0];
    if d != "0" {
      DigitRunAll(d, rest);
      assert t[0..] == t;
    }
  }

  lemma IntegerLengthOf(lit: string, rest: string)
    requires IntPattern(lit) && EndsNumber(rest)
    ensures IntegerLength(lit + rest) == Some(|lit|)
  {
    hide DigitRun;
    if lit[0] != '-' {
      UnsignedLengthOf(lit, rest);
    } else {
      var d := lit[1..];
      assert (lit + rest)[1..] == d + rest;
      assert d + rest != "" && (d + rest)[0] == d[0];
      assert (d + rest)[0..] == d + rest;
      UnsignedLengthOf(d, rest);
    }
  }

  lemma ParseInteger(lit: string, rest: string)
    requires IntPattern(lit) && EndsNumber(rest)
    ensures ParseNumber(lit + rest) == Done(lit, rest)
  {
    var t := lit + rest;
    IntegerLengthOf(lit, rest);
    assert t[|lit|..] == rest && t[..|lit|] == lit;
    assert FractionLength(rest) == Some(0) && ExponentLength(rest) == Some(0);
  }

  /** A canonical text starts with neither white space nor a closing bracket. */
  lemma TextHead(v: Value)
    requires Accepted(v)
    ensures var t := Text(v); t != "" && !IsSpace(t[0]) && t[0] != ']' && t[0] != '}'
  {
    if v.Num? { assert IntPattern(v.lit); }
  }

  lemma SkipNothing(s: string)
    requires s != "" ==> !IsSpace(s[0])
    ensures SkipSpace(s) == s
  {
  }

  // One unfolding of the reader at each kind of text.

  lemma ReadArray(body: string)
    requires body != "" && !IsSpace(body[0])
    ensures ParseValue("[" + body) ==
      if body[0] == ']' then Done(Arr([]), body[1..])
      else match ParseElements(body)
        case Fail => Fail
        case Done(a, rest) => Done(Arr(a), rest)
  {
    var t := "[" + body;
    SkipNothing(t);
    SkipNothing(body);
    assert t[1..] == body;
  }

  lemma ReadObject(body: string)
    requires body != "" && !IsSpace(body[0])
    ensures ParseValue("{" + body) ==
      if body[0] == '}' then Done(Obj(map[]), body[1..])
      else match ParseMembers(body, map[])
        case Fail => Fail
        case Done(m, rest) => Done(Obj(m), rest)
  {
    var t := "{" + body;
    SkipNothing(t);
    SkipNothing(body);
    assert t[1..] == body;
  }

  lemma ReadElement(s: string, v: Value, tail: string)
    requires ParseValue(s) == Done(v, tail) && tail != "" && (tail[0] == ']' || tail[0] == ',')
    ensures ParseElements(s) ==
      if tail[0] == ']' then Done([v], tail[1..])
      else match ParseElements(tail[1..])
        case Fail => Fail
        case Done(vs, rest) => Done([v] + vs, rest)
  {
    SkipNothing(tail);
  }

  lemma ReadMember(k: string, s: string, v: Value, tail: string, acc: map<string, Value>)
    requires ParseValue(s) == Done(v, tail) && tail != "" && (tail[0] == '}' || tail[0] == ',')
    requires k !in acc
    ensures ParseMembers(Quoted(k) + ":" + s, acc) ==
      if tail[0] == '}' then Done(acc[k := v], tail[1..]) else ParseMembers(tail[1..], acc[k := v])
  {
    hide ParseValue, ParseChars, EscapedAll, SkipSpace;
    var t := Quoted(k) + ":" + s;
    var afterKey := ":" + s;
    assert t[1..] == EscapedAll(k) + "\"" + afterKey;
    ParseEscapedAll(k, afterKey);
    SkipNothing(t);
    SkipNothing(afterKey);
    assert afterKey[1..] == s;
    SkipNothing(tail);
  }

  lemma ReadWord(v: Value, rest: string)
    requires v.Null? || v.Bool?
    ensures ParseValue(Text(v) + rest) == Done(v, rest)
  {
    var t := Text(v) + rest;
    SkipNothing(t);
    assert t[..|Text(v)|] == Text(v) && t[|Text(v)|..] == rest;
    if v == Bool(false) { assert t[..4] != "null" && t[..4] != "true" by { assert t[..4][0] == 'f'; } }
    if v == Bool(true) { assert t[..4] != "null" by { assert t[..4][0] == 't'; } }
  }

  lemma ReadNumber(s: string)
    requires s != "" && (s[0] == '-' || IsDigit(s[0]))
    ensures ParseValue(s) == match ParseNumber(s) case Fail => Fail case Done(lit, rest) => Done(Num(lit), rest)
  {
    hide ParseNumber, ParseMembers, ParseElements, ParseChars;
    SkipNothing(s);
    assert |s| >= 4 ==> s[..4][0] == s[0];
    assert |s| >= 5 ==> s[..5][0] == s[0];
  }

  lemma ReadString(s: string, rest: string)
    ensures ParseValue(Quoted(s) + rest) == Done(Str(s), rest)
  {
    var t := Quoted(s) + rest;
    SkipNothing(t);
    assert t[1..] == EscapedAll(s) + "\"" + rest;
    ParseEscapedAll(s, rest);
  }

  /** Reading a canonical form gives the value back and stops where it ends. */
  lemma {:induction false} ParseText(v: Value, rest: string)
    requires Accepted(v) && EndsNumber(rest)
    ensures ParseValue(Text(v) + rest) == Done(v, rest)
    decreases v, 1, 0
  {
    hide ParseValue, ParseNumber;
    match v {
      case Num(lit) =>
        ParseInteger(lit, rest);
        ReadNumber(lit + rest);
      case Str(s) => ReadString(s, rest);
      case Arr(a) => ParseArrayText(v, rest);
      case Obj(m) => ParseObjectText(v, rest);
      case _ => ReadWord(v, rest);
    }
  }

  /** What follows the first i elements of an array. */
  ghost function ElementsTail(v: Value, i: nat, rest: string): string
    requires v.Arr? && i <= |v.a|
  {
    ElementsText(v, i) + "]" + rest
  }

  lemma ElementsTailShape(v: Value, i: nat, rest: string)
    requires v.Arr? && i <= |v.a|
    ensures ElementsTail(v, i, rest) ==
      if i == |v.a| then "]" + rest
      else (if i > 0 then "," else "") + (Text(v.a[i]) + ElementsTail(v, i + 1, rest))
  {
    hide Text;
  }

  lemma ArrayShape(v: Value, rest: string)
    requires v.Arr?
    ensures Text(v) + rest == "[" + ElementsTail(v, 0, rest)
  {
    hide ElementsText;
  }

  lemma {:induction false} ParseArrayText(v: Value, rest: string)
    requires v.Arr? && Accepted(v)
    ensures ParseValue(Text(v) + rest) == Done(v, rest)
    decreases v, 0, |v.a| + 1
  {
    hide ParseValue, ParseElements, ElementsTail, Text;
    var body := ElementsTail(v, 0, rest);
    ArrayShape(v, rest);
    ElementsTailShape(v, 0, rest);
    if v.a == [] {
      assert body[1..] == rest;
    } else {
      assert body == Text(v.a[0]) + ElementsTail(v, 1, rest);
      TextHead(v.a[0]);
      ParseElementsText(v, 0, rest);
      assert v.a[0..] == v.a;
    }
    ReadArray(body);
  }

  lemma {:induction false} ParseElementsText(v: Value, i: nat, rest: string)
    requires v.Arr? && i < |v.a| && Accepted(v)
    ensures ParseElements(Text(v.a[i]) + ElementsTail(v, i + 1, rest)) == Done(v.a[i..], rest)
    decreases v, 0, |v.a| - i
  {
    hide ParseValue, ParseElements, Text, ElementsTail;
    var tail := ElementsTail(v, i + 1, rest);
    ElementsTailShape(v, i + 1, rest);
    if i + 1 == |v.a| {
      assert tail[1..] == rest;
      assert v.a[i..] == [v.a[i]];
    } else {
      assert tail[1..] == Text(v.a[i + 1]) + ElementsTail(v, i + 2, rest);
      ParseElementsText(v, i + 1, rest);
      assert v.a[i..] == [v.a[i]] + v.a[i + 1..];
    }
    ParseText(v.a[i], tail);
    ReadElement(Text(v.a[i]) + tail, v.a[i], tail);
  }

  /** What follows the first i members of an object. */
  ghost function MembersTail(v: Value, ks: seq<string>, i: nat, rest: string): string
    requires v.Obj? && i <= |ks| && forall k | k in ks :: k in v.m
  {
    MembersText(v, ks, i) + "}" + rest
  }

  lemma MembersTailShape(v: Value, ks: seq<string>, i: nat, rest: string)
    requires v.Obj? && i <= |ks| && forall k | k in ks :: k in v.m
    ensures MembersTail(v, ks, i, rest) ==
      if i == |ks| then "}" + rest
      else (if i > 0 then "," else "") + (Quoted(ks[i]) + ":" + (Text(v.m[ks[i]]) + MembersTail(v, ks, i + 1, rest)))
  {
    hide Text, Quoted;
  }

  /** m restricted to the listed keys. */
  ghost function Listed(m: map<string, Value>, ks: seq<string>): map<string, Value> {
    map k | k in m && k in ks :: m[k]
  }

  lemma ListedNext(m: map<string, Value>, ks: seq<string>, i: nat)
    requires i < |ks| && SortedKeys(ks, m.Keys)
    ensures ks[i] in m && ks[i] !in Listed(m, ks[..i])
    ensures Listed(m, ks[..i])[ks[i] := m[ks[i]]] == Listed(m, ks[..i + 1])
    ensures Listed(m, ks) == m
  {
    SortedDistinct(ks, m.Keys);
    assert ks[i] in ks;
    assert ks[..i + 1] == ks[..i] + [ks[i]];
  }

  lemma ListedNone(m: map<string, Value>)
    ensures Listed(m, []) == map[]
    ensures Ascending(m.Keys) == [] ==> m == map[]
  {
    if Ascending(m.Keys) == [] {
      assert forall k :: k !in m.Keys;
    }
  }

  lemma AcceptedMember(v: Value, k: string)
    requires v.Obj? && Accepted(v) && k in v.m
    ensures Accepted(v.m[k])
  {
  }

  lemma ObjectShape(v: Value, rest: string)
    requires v.Obj?
    ensures Text(v) + rest == "{" + MembersTail(v, Ascending(v.m.Keys), 0, rest)
  {
  }

  lemma QuotedHead(s: string)
    ensures Quoted(s) != "" && Quoted(s)[0] == '"'
  {
  }

  /** What follows the opening brace: the closing one, or the first member. */
  lemma ObjectBody(v: Value, ks: seq<string>, rest: string)
    requires v.Obj? && forall k | k in ks :: k in v.m
    ensures var body := MembersTail(v, ks, 0, rest);
            && body != "" && !IsSpace(body[0])
            && if ks == [] then body[0] == '}' && body[1..] == rest
               else body[0] != '}' && body == Quoted(ks[0]) + ":" + (Text(v.m[ks[0]]) + MembersTail(v, ks, 1, rest))
  {
    MembersTailShape(v, ks, 0, rest);
    hide Text, MembersTail;
    if ks != [] {
      QuotedHead(ks[0]);
      hide Quoted;
      var first := Quoted(ks[0]) + ":" + (Text(v.m[ks[0]]) + MembersTail(v, ks, 1, rest));
      assert MembersTail(v, ks, 0, rest) == first;
      assert first[0] == Quoted(ks[0])[0];
    }
  }

  lemma {:induction false} ParseObjectText(v: Value, rest: string)
    requires v.Obj? && Accepted(v)
    ensures ParseValue(Text(v) + rest) == Done(v, rest)
    decreases v, 0, |Ascending(v.m.Keys)| + 1
  {
    hide ParseValue, ParseMembers, Text, MembersText, Quoted, MembersTail, Ascending, SortedKeys, Accepted, Listed,
      IsSpace;
    var ks := Ascending(v.m.Keys);
    AllListed(ks, v.m.Keys);
    ObjectShape(v, rest);
    ObjectBody(v, ks, rest);
    ListedNone(v.m);
    if ks != [] {
      ParseMembersText(v, ks, 0, rest);
      assert ks[..0] == [];
      ListedNext(v.m, ks, 0);
    }
    ReadObject(MembersTail(v, ks, 0, rest));
  }

  lemma {:induction false} ParseMembersText(v: Value, ks: seq<string>, i: nat, rest: string)
    requires v.Obj? && i < |ks| && Accepted(v) && SortedKeys(ks, v.m.Keys)
    ensures ParseMembers(Quoted(ks[i]) + ":" + (Text(v.m[ks[i]]) + MembersTail(v, ks, i + 1, rest)),
                         Listed(v.m, ks[..i]))
         == Done(Listed(v.m, ks), rest)
    decreases v, 0, |ks| - i
  {
    hide ParseValue, ParseMembers, Text, MembersTail, Quoted, Listed, Accepted, SortedKeys;
    AllListed(ks, v.m.Keys);
    var x := v.m[ks[i]];
    AcceptedMember(v, ks[i]);
    var tail := MembersTail(v, ks, i + 1, rest);
    MembersTailShape(v, ks, i + 1, rest);
    ListedNext(v.m, ks, i);
    if i + 1 == |ks| {
      assert tail[1..] == rest;
      assert ks[..i + 1] == ks;
    } else {
      assert tail[1..] == Quoted(ks[i + 1]) + ":" + (Text(v.m[ks[i + 1]]) + MembersTail(v, ks, i + 2, rest));
      ParseMembersText(v, ks, i + 1, rest);
    }
    ParseText(x, tail);
    ReadMember(ks[i], Text(x) + tail, x, tail, Listed(v.m, ks[..i]));
  }

  /** Parsing is a left inverse of the canonical form. */
  lemma RoundTrip(v: Value)
    requires Accepted(v)
    ensures ParseDocument(Text(v)) == Some(v)
  {
    ParseText(v, "");
    assert Text(v) + "" == Text(v);
  }

  /** Distinct accepted values have distinct canonical forms. */
  lemma TextInjective(v: Value, w: Value)
    requires Accepted(v) && Accepted(w) && Text(v) == Text(w)
    ensures v == w
  {
    RoundTrip(v);
    RoundTrip(w);
  }
}
