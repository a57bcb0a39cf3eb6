/**
 The deterministic JSON form every signature and hash is computed over:
 object keys sorted by UTF-16 code units, fixed string escapes (RFC 8785
 sections 3.2.3 and 3.2.2.2), and integers only.
 */
module Canonical {
  import opened Json
  import opened Order

  // ---- Numbers ----

  /** 2^53: the magnitude a number must stay below. */
  const MAX_SAFE_INT := 0x20_0000_0000_0000

  function Unsigned(lit: string): string {
    if lit != "" && lit[0] == '-' then lit[1..] else lit
  }

  /** The accepted spelling: an optional minus, then 0 or digits without a leading 0. */
  predicate IntPattern(lit: string) {
    var d := Unsigned(lit);
    d == "0" || (d != "" && '1' <= d[0] <= '9' && forall i | 0 <= i < |d| :: IsDigit(d[i]))
  }

  function DigitsValue(d: string): nat
    requires forall i | 0 <= i < |d| :: IsDigit(d[i])
  {
    if d == "" then 0 else assert IsDigit(d[|d| - 1]); DigitsValue(d[..|d| - 1]) * 10 + (d[|d| - 1] as int - '0' as int)
  }

  function IntValue(lit: string): int
    requires IntPattern(lit)
  {
    if lit[0] == '-' then 0 - DigitsValue(Unsigned(lit)) else DigitsValue(lit)
  }

  predicate CanonicalInt(lit: string) {
    IntPattern(lit) && lit != "-0" && -MAX_SAFE_INT < IntValue(lit) < MAX_SAFE_INT
  }

  // ---- Strings ----

  function HexDigit(n: int): char
    requires 0 <= n < 16
  {
    "0123456789abcdef"[n]
  }

  function Escaped(c: char): string {
    match c
    case '"' => "\\\""
    case '\\' => "\\\\"
    case '\U{8}' => "\\b"
    case '\t' => "\\t"
    case '\n' => "\\n"
    case '\U{C}' => "\\f"
    case '\r' => "\\r"
    case _ =>
      if c < ' ' then ['\\', 'u', '0', '0', HexDigit(c as int / 16), HexDigit(c as int % 16)]
      else [c]
  }

  function EscapedAll(s: string): string {
    if s == "" then "" else Escaped(s[0]) + EscapedAll(s[1..])
  }

  function Quoted(s: string): string { "\"" + EscapedAll(s) + "\"" }

  // ---- Key order ----

  /** ks lists keys, each once, in ascending key order. */
  ghost predicate SortedKeys(ks: seq<string>, keys: set<string>) {
    && (forall k :: k in ks <==> k in keys)
    && (forall i, j | 0 <= i < j < |ks| :: KeyLess(ks[i], ks[j]))
  }

  lemma {:induction false} SortedDistinct(ks: seq<string>, keys: set<string>)
    requires SortedKeys(ks, keys)
    ensures forall i, j | 0 <= i < j < |ks| :: ks[i] != ks[j]
  {
    forall i, j | 0 <= i < j < |ks| ensures ks[i] != ks[j] {
      KeyLessStrictTotal(ks[i], ks[j], ks[j]);
    }
  }

  lemma SortedTail(ks: seq<string>, keys: set<string>)
    requires SortedKeys(ks, keys) && ks != []
    ensures SortedKeys(ks[1..], keys - {ks[0]})
  {
    SortedDistinct(ks, keys);
    forall k ensures k in ks[1..] <==> k in keys - {ks[0]} {
      assert ks == [ks[0]] + ks[1..];
    }
  }

  lemma AllListed(ks: seq<string>, keys: set<string>)
    requires SortedKeys(ks, keys)
    ensures forall k | k in ks :: k in keys
    ensures forall i | 0 <= i < |ks| :: ks[i] in keys
  {
  }

  /** A set of keys has only one ascending listing, so sorting hides the map's iteration order. */
  lemma {:induction false} SortedUnique(a: seq<string>, b: seq<string>, keys: set<string>)
    requires SortedKeys(a, keys) && SortedKeys(b, keys)
    ensures a == b
    decreases |a|
  {
    if a == [] {
      if b != [] {
        AllListed(b, keys);
        assert false;
      }
    } else {
      assert a[0] in keys;
      assert a[0] in b && b[0] in a;
      var i :| 0 <= i < |a| && a[i] == b[0];
      var j :| 0 <= j < |b| && b[j] == a[0];
      if i > 0 && j > 0 {
        KeyLessStrictTotal(a[0], b[0], b[0]);
      }
      SortedTail(a, keys);
      SortedTail(b, keys);
      SortedUnique(a[1..], b[1..], keys - {a[0]});
    }
  }

  /** Place k in an ascending listing that lacks it. */
  function Insert(k: string, ks: seq<string>): seq<string> {
    if ks == [] || KeyLess(k, ks[0]) then [k] + ks else [ks[0]] + Insert(k, ks[1..])
  }

  lemma {:induction false} InsertSorted(k: string, ks: seq<string>, keys: set<string>)
    requires SortedKeys(ks, keys) && k !in keys
    ensures SortedKeys(Insert(k, ks), keys + {k})
    decreases |ks|
  {
    var r := Insert(k, ks);
    if ks == [] || KeyLess(k, ks[0]) {
      forall i, j | 0 <= i < j < |r| ensures KeyLess(r[i], r[j]) {
        if i == 0 && j > 1 { KeyLessStrictTotal(k, ks[0], ks[j - 1]); }
      }
    } else {
      SortedTail(ks, keys);
      var rest := keys - {ks[0]};
      InsertSorted(k, ks[1..], rest);
      assert ks[0] in keys;
      KeyLessStrictTotal(k, ks[0], k);
      forall x ensures x in r <==> x in keys + {k} {
        assert x in r <==> x == ks[0] || x in Insert(k, ks[1..]);
      }
      forall i, j | 0 <= i < j < |r| ensures KeyLess(r[i], r[j]) {
        if i == 0 {
          assert r[j] in Insert(k, ks[1..]);
          if r[j] != k {
            assert r[j] in ks[1..];
          }
        }
      }
    }
  }

  lemma {:induction false} SortedExists(keys: set<string>)
    ensures exists ks :: SortedKeys(ks, keys)
  {
    if keys == {} {
      assert SortedKeys([], keys);
    } else {
      var k :| k in keys;
      SortedExists(keys - {k});
      var ks :| SortedKeys(ks, keys - {k});
      InsertSorted(k, ks, keys - {k});
      assert keys - {k} + {k} == keys;
      assert SortedKeys(Insert(k, ks), keys);
    }
  }

  ghost function Ascending(keys: set<string>): (ks: seq<string>)
    ensures SortedKeys(ks, keys)
  {
    SortedExists(keys);
    var ks :| SortedKeys(ks, keys);
    ks
  }

  // ---- The form ----

  /** The values that have a canonical form: every number in them is a canonical integer. */
  ghost predicate Accepted(v: Value)
    decreases v
  {
    match v
    case Num(lit) => CanonicalInt(lit)
    case Arr(a) => forall i | 0 <= i < |a| :: Accepted(a[i])
    case Obj(m) => forall k | k in m :: Accepted(m[k])
    case _ => true
  }

  ghost function Text(v: Value): string
    decreases v, 1, 0
  {
    match v
    case Null => "null"
    case Bool(b) => if b then "true" else "false"
    case Num(lit) => lit
    case Str(s) => Quoted(s)
    case Arr(a) => "[" + ElementsText(v, 0) + "]"
    case Obj(m) => "{" + MembersText(v, Ascending(m.Keys), 0) + "}"
  }

  ghost function ElementsText(v: Value, i: nat): string
    requires v.Arr? && i <= |v.a|
    decreases v, 0, |v.a| - i
  {
    if i == |v.a| then ""
    else (if i > 0 then "," else "") + Text(v.a[i]) + ElementsText(v, i + 1)
  }

  ghost function MembersText(v: Value, ks: seq<string>, i: nat): string
    requires v.Obj? && i <= |ks| && forall k | k in ks :: k in v.m
    decreases v, 0, |ks| - i
  {
    if i == |ks| then ""
    else (if i > 0 then "," else "") + Quoted(ks[i]) + ":" + Text(v.m[ks[i]]) + MembersText(v, ks, i + 1)
  }
}
