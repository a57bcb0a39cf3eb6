/** writeString and canonicalize as they build their output, appending piece by piece. */
module CanonicalWriter {
  import opened Base
  import opened Json
  import opened Order
  import opened Canonical
  import opened Documents
  import Utf8

  lemma {:induction false} EscapedAllSnoc(s: string, c: char)
    ensures EscapedAll(s + [c]) == EscapedAll(s) + Escaped(c)
  {
    hide Escaped;
    if s == "" {
      assert s + [c] == [c] && [c][1..] == "";
    } else {
      assert (s + [c])[1..] == s[1..] + [c];
      EscapedAllSnoc(s[1..], c);
    }
  }

  method WriteRune(buf: string, r: char) returns (out: string)
    ensures out == buf + Escaped(r)
  {
    match r {
      case '"' => out := buf + "\\\"";
      case '\\' => out := buf + "\\\\";
      case '\U{8}' => out := buf + "\\b";
      case '\t' => out := buf + "\\t";
      case '\n' => out := buf + "\\n";
      case '\U{C}' => out := buf + "\\f";
      case '\r' => out := buf + "\\r";
      case _ =>
        if r < ' ' {
          out := buf + "\\u00";
          out := out + [HexDigit(r as int / 16)];
          out := out + [HexDigit(r as int % 16)];
          assert out == buf + Escaped(r);
        } else {
          out := buf + [r];
        }
    }
  }

  method WriteString(buf: string, s: string) returns (out: string)
    ensures out == buf + Quoted(s)
  {
    hide Escaped;
    out := buf + "\"";
    for i := 0 to |s|
      invariant out == buf + "\"" + EscapedAll(s[..i])
    {
      out := WriteRune(out, s[i]);
      assert s[..i + 1] == s[..i] + [s[i]];
      EscapedAllSnoc(s[..i], s[i]);
    }
    assert s[..|s|] == s;
    out := out + "\"";
  }

  lemma InsertStep(k: string, ks: seq<string>, p: nat)
    requires p < |ks|
    ensures Insert(k, ks[p..]) ==
      if KeyLess(k, ks[p]) then [k] + ks[p..] else [ks[p]] + Insert(k, ks[p + 1..])
    ensures ks[..p + 1] == ks[..p] + [ks[p]]
  {
    hide KeyLess;
    assert ks[p..][1..] == ks[p + 1..];
  }

  /** The position-by-position insertion of one key. */
  method InsertKey(k: string, ks: seq<string>) returns (out: seq<string>)
    ensures out == Insert(k, ks)
  {
    hide KeyLess;
    var p := 0;
    assert ks[0..] == ks;
    while p < |ks|
      invariant 0 <= p <= |ks|
      invariant Insert(k, ks) == ks[..p] + Insert(k, ks[p..])
    {
      var before := Utf16Less(k, ks[p]);
      InsertStep(k, ks, p);
      if before { return ks[..p] + [k] + ks[p..]; }
      p := p + 1;
    }
    out := ks + [k];
  }

  function SetOf(keys: seq<string>): set<string> { set k | k in keys }

  lemma SetOfSnoc(keys: seq<string>, k: string)
    ensures SetOf(keys + [k]) == SetOf(keys) + {k}
  {
  }

  /** Sort keys that came in any order. */
  method SortKeys(keys: seq<string>) returns (out: seq<string>)
    requires forall i, j | 0 <= i < j < |keys| :: keys[i] != keys[j]
    ensures SortedKeys(out, SetOf(keys))
  {
    out := [];
    for i := 0 to |keys|
      invariant SortedKeys(out, SetOf(keys[..i]))
    {
      InsertSorted(keys[i], out, SetOf(keys[..i]));
      out := InsertKey(keys[i], out);
      assert keys[..i + 1] == keys[..i] + [keys[i]];
      SetOfSnoc(keys[..i], keys[i]);
    }
    assert keys[..|keys|] == keys;
  }

  /** The map's keys in whatever order the iteration yields them. */
  method KeysOf(m: map<string, Value>) returns (keys: seq<string>)
    ensures forall i, j | 0 <= i < j < |keys| :: keys[i] != keys[j]
    ensures SetOf(keys) == m.Keys
  {
    keys := [];
    var left := m.Keys;
    while left != {}
      invariant left <= m.Keys
      invariant forall i, j | 0 <= i < j < |keys| :: keys[i] != keys[j]
      invariant SetOf(keys) == m.Keys - left
      decreases |left|
    {
      var k :| k in left;
      assert k !in SetOf(keys);
      SetOfSnoc(keys, k);
      keys := keys + [k];
      left := left - {k};
    }
  }

  /** The sorted keys of a map do not depend on its iteration order. */
  method SortedKeysOf(m: map<string, Value>) returns (ks: seq<string>)
    ensures ks == Ascending(m.Keys)
  {
    var keys := KeysOf(m);
    ks := SortKeys(keys);
    SortedUnique(ks, Ascending(m.Keys), m.Keys);
  }

  method Canonicalize(buf: string, v: Value) returns (r: Option<string>)
    ensures r == if Accepted(v) then Some(buf + Text(v)) else None
    decreases v, 1
  {
    hide Quoted;
    match v {
      case Null => return Some(buf + "null");
      case Bool(b) => return Some(buf + if b then "true" else "false");
      case Str(s) =>
        var out := WriteString(buf, s);
        return Some(out);
      case Num(lit) =>
        if !IntPattern(lit) || lit == "-0" { return None; }
        var n := IntValue(lit);
        if n >= MAX_SAFE_INT || n <= -MAX_SAFE_INT { return None; }
        return Some(buf + lit);
      case Arr(a) =>
        r := CanonicalizeArray(buf, v);
      case Obj(m) =>
        r := CanonicalizeObject(buf, v);
    }
  }

  lemma ArrayPieces(buf: string, v: Value)
    requires v.Arr?
    ensures buf + Text(v) == buf + "[" + ElementsText(v, 0) + "]"
  {
  }

  lemma ElementPieces(buf: string, v: Value, i: nat)
    requires v.Arr? && i < |v.a|
    ensures buf + ElementsText(v, i) == (if i > 0 then buf + "," else buf) + Text(v.a[i]) + ElementsText(v, i + 1)
  {
    hide Text;
  }

  method CanonicalizeArray(buf: string, v: Value) returns (r: Option<string>)
    requires v.Arr?
    ensures r == if Accepted(v) then Some(buf + Text(v)) else None
    decreases v, 0
  {
    hide Text, ElementsText;
    var out := buf + "[";
    for i := 0 to |v.a|
      invariant forall j | 0 <= j < i :: Accepted(v.a[j])
      invariant out + ElementsText(v, i) == buf + "[" + ElementsText(v, 0)
    {
      ElementPieces(out, v, i);
      if i > 0 { out := out + ","; }
      var next := Canonicalize(out, v.a[i]);
      if next.None? { return None; }
      out := next.value;
    }
    assert ElementsText(v, |v.a|) == "" by { NoElements(v); }
    assert out == buf + "[" + ElementsText(v, 0);
    ArrayPieces(buf, v);
    return Some(out + "]");
  }

  lemma NoElements(v: Value)
    requires v.Arr?
    ensures ElementsText(v, |v.a|) == ""
  {
  }

  lemma ObjectPieces(buf: string, v: Value)
    requires v.Obj?
    ensures buf + Text(v) == buf + "{" + MembersText(v, Ascending(v.m.Keys), 0) + "}"
  {
  }

  lemma MemberPieces(buf: string, v: Value, ks: seq<string>, i: nat)
    requires v.Obj? && i < |ks| && forall k | k in ks :: k in v.m
    ensures ks[i] in v.m
    ensures buf + MembersText(v, ks, i)
         == (if i > 0 then buf + "," else buf) + Quoted(ks[i]) + ":" + Text(v.m[ks[i]]) + MembersText(v, ks, i + 1)
  {
    hide Text, Quoted;
    assert ks[i] in ks;
  }

  lemma NoMembers(v: Value, ks: seq<string>)
    requires v.Obj? && forall k | k in ks :: k in v.m
    ensures MembersText(v, ks, |ks|) == ""
  {
  }

  lemma AcceptedObject(v: Value, ks: seq<string>)
    requires v.Obj? && SortedKeys(ks, v.m.Keys)
    ensures Accepted(v) <==> forall j | 0 <= j < |ks| :: Accepted(v.m[ks[j]])
  {
    if forall j | 0 <= j < |ks| :: Accepted(v.m[ks[j]]) {
      forall k | k in v.m ensures Accepted(v.m[k]) {
        assert k in ks;
        var j :| 0 <= j < |ks| && ks[j] == k;
        assert Accepted(v.m[ks[j]]);
      }
    }
  }

  method CanonicalizeObject(buf: string, v: Value) returns (r: Option<string>)
    requires v.Obj?
    ensures r == if Accepted(v) then Some(buf + Text(v)) else None
    decreases v, 0
  {
    hide Quoted, Ascending, Text, MembersText, Accepted, SortedKeys;
    var ks := SortedKeysOf(v.m);
    AllListed(ks, v.m.Keys);
    AcceptedObject(v, ks);
    var out := buf + "{";
    for i := 0 to |ks|
      invariant forall j | 0 <= j < i :: Accepted(v.m[ks[j]])
      invariant out + MembersText(v, ks, i) == buf + "{" + MembersText(v, ks, 0)
    {
      MemberPieces(out, v, ks, i);
      if i > 0 { out := out + ","; }
      out := WriteString(out, ks[i]);
      out := out + ":";
      var next := Canonicalize(out, v.m[ks[i]]);
      if next.None? { return None; }
      out := next.value;
    }
    NoMembers(v, ks);
    assert out == buf + "{" + MembersText(v, ks, 0);
    ObjectPieces(buf, v);
    return Some(out + "}");
  }

  /** CanonicalValue: the bytes that are signed and hashed. */
  method CanonicalValue(v: Value) returns (r: Option<bytes>)
    ensures r == CanonicalBytes(v)
  {
    var text := Canonicalize("", v);
    if text.None? { return None; }
    assert text.value == Text(v);
    return Some(Utf8.Encode(text.value));
  }
}
