/**
 JSON documents as RFC 8259 defines them, read into generic values the way
 parseValue reads the library's token stream: numbers keep their spelling,
 objects are maps, and a repeated key (compared after unescaping) is refused.
 */
module Json {
  import opened Base
  import Utf8

  datatype Value =
    | Null
    | Bool(b: bool)
    | Num(lit: string)
    | Str(s: string)
    | Arr(a: seq<Value>)
    | Obj(m: map<string, Value>)

  /** Outcome of reading a prefix of a text: the value and what follows it. */
  datatype Parsed<+T> = Fail | Done(v: T, rest: string)

  predicate IsSpace(c: char) { c == ' ' || c == '\t' || c == '\n' || c == '\r' }

  function SkipSpace(s: string): (r: string)
    ensures |r| <= |s|
  {
    if s != "" && IsSpace(s[0]) then SkipSpace(s[1..]) else s
  }

  predicate IsDigit(c: char) { '0' <= c <= '9' }

  /** How many digits s starts with. */
  function DigitRun(s: string): (n: nat)
    ensures n <= |s|
  {
    if s != "" && IsDigit(s[0]) then 1 + DigitRun(s[1..]) else 0
  }

  /** Length of an optional part (fraction or exponent): 0 when absent, None when it starts but has no digit. */
  function FractionLength(s: string): (r: Option<nat>)
    ensures r.Some? ==> r.value <= |s|
  {
    if s == "" || s[0] != '.' then Some(0)
    else var n := DigitRun(s[1..]); if n == 0 then None else Some(1 + n)
  }

  function ExponentLength(s: string): (r: Option<nat>)
    ensures r.Some? ==> r.value <= |s|
  {
    if s == "" || (s[0] != 'e' && s[0] != 'E') then Some(0)
    else
      var sign := if |s| > 1 && (s[1] == '+' || s[1] == '-') then 1 else 0;
      var n := DigitRun(s[1 + sign..]);
      if n == 0 then None else Some(1 + sign + n)
  }

  /** Length of the integer part: a minus sign, then 0 or digits without a leading 0. */
  function IntegerLength(s: string): (r: Option<nat>)
    ensures r.Some? ==> 0 < r.value <= |s|
  {
    var sign := if s != "" && s[0] == '-' then 1 else 0;
    if |s| == sign then None
    else if s[sign] == '0' then Some(sign + 1)
    else if '1' <= s[sign] <= '9' then Some(sign + DigitRun(s[sign..]))
    else None
  }

  function ParseNumber(s: string): (r: Parsed<string>)
    ensures r.Done? ==> r.v != "" && s == r.v + r.rest
  {
    match IntegerLength(s)
    case None => Fail
    case Some(i) =>
      match FractionLength(s[i..])
      case None => Fail
      case Some(f) =>
        match ExponentLength(s[i + f..])
        case None => Fail
        case Some(e) =>
          assert s == s[..i + f + e] + s[i + f + e..];
          Done(s[..i + f + e], s[i + f + e..])
  }

  function HexVal(c: char): (r: Option<int>)
    ensures r.Some? ==> 0 <= r.value < 16
  {
    if '0' <= c <= '9' then Some(c as int - '0' as int)
    else if 'a' <= c <= 'f' then Some(c as int - 'a' as int + 10)
    else if 'A' <= c <= 'F' then Some(c as int - 'A' as int + 10)
    else None
  }

  /** The value of the four hex digits s starts with, of either case. */
  function Hex4(s: string): (r: Option<int>)
    ensures r.Some? ==> 0 <= r.value < 0x10000 && |s| >= 4
  {
    if |s| < 4 then None
    else match (HexVal(s[0]), HexVal(s[1]), HexVal(s[2]), HexVal(s[3]))
      case (Some(a), Some(b), Some(c), Some(d)) => Some(a * 4096 + b * 256 + c * 16 + d)
      case _ => None
  }

  predicate IsHigh(v: int) { 0xD800 <= v < 0xDC00 }
  predicate IsLow(v: int) { 0xDC00 <= v < 0xE000 }

  /** A \u escape (s follows the "u"). A surrogate escape outside a pair reads as U+FFFD. */
  function ParseUnicode(s: string): (r: Parsed<char>)
    ensures r.Done? ==> |r.rest| < |s|
  {
    match Hex4(s)
    case None => Fail
    case Some(v) =>
      if !IsHigh(v) && !IsLow(v) then Done(v as char, s[4..])
      else if IsHigh(v) && |s| >= 6 && s[4] == '\\' && s[5] == 'u' then
        (match Hex4(s[6..])
         case Some(lo) =>
           if IsLow(lo) then Done((0x10000 + (v - 0xD800) * 0x400 + (lo - 0xDC00)) as char, s[10..])
           else Done(Utf8.REPLACEMENT, s[4..])
         case None => Done(Utf8.REPLACEMENT, s[4..]))
      else Done(Utf8.REPLACEMENT, s[4..])
  }

  /** An escape (s follows the backslash). */
  function ParseEscape(s: string): (r: Parsed<char>)
    ensures r.Done? ==> |r.rest| < |s|
  {
    if s == "" then Fail
    else match s[0]
      case '"' => Done('"', s[1..])
      case '\\' => Done('\\', s[1..])
      case '/' => Done('/', s[1..])
      case 'b' => Done('\U{8}', s[1..])
      case 'f' => Done('\U{C}', s[1..])
      case 'n' => Done('\n', s[1..])
      case 'r' => Done('\r', s[1..])
      case 't' => Done('\t', s[1..])
      case 'u' => ParseUnicode(s[1..])
      case _ => Fail
  }

  /** One character of a string literal. */
  function ParseChar(s: string): (r: Parsed<char>)
    requires s != ""
    ensures r.Done? ==> |r.rest| < |s|
  {
    if s[0] == '\\' then ParseEscape(s[1..])
    else if s[0] < ' ' then Fail
    else Done(s[0], s[1..])
  }

  /** The rest of a string literal, after its opening quote. */
  function ParseChars(s: string): (r: Parsed<string>)
    ensures r.Done? ==> |r.rest| < |s|
    decreases |s|
  {
    if s == "" then Fail
    else if s[0] == '"' then Done("", s[1..])
    else match ParseChar(s)
      case Fail => Fail
      case Done(c, t) =>
        match ParseChars(t)
        case Fail => Fail
        case Done(cs, rest) => Done([c] + cs, rest)
  }

  function ParseValue(s: string): (r: Parsed<Value>)
    ensures r.Done? ==> |r.rest| < |s|
    decreases |s|, 2
  {
    var t := SkipSpace(s);
    if t == "" then Fail
    else if t[0] == '{' then
      var u := SkipSpace(t[1..]);
      if u != "" && u[0] == '}' then Done(Obj(map[]), u[1..])
      else match ParseMembers(t[1..], map[])
        case Fail => Fail
        case Done(m, rest) => Done(Obj(m), rest)
    else if t[0] == '[' then
      var u := SkipSpace(t[1..]);
      if u != "" && u[0] == ']' then Done(Arr([]), u[1..])
      else match ParseElements(t[1..])
        case Fail => Fail
        case Done(a, rest) => Done(Arr(a), rest)
    else if t[0] == '"' then
      match ParseChars(t[1..])
      case Fail => Fail
      case Done(str, rest) => Done(Str(str), rest)
    else if |t| >= 4 && t[..4] == "null" then Done(Null, t[4..])
    else if |t| >= 4 && t[..4] == "true" then Done(Bool(true), t[4..])
    else if |t| >= 5 && t[..5] == "false" then Done(Bool(false), t[5..])
    else match ParseNumber(t)
      case Fail => Fail
      case Done(lit, rest) => Done(Num(lit), rest)
  }

  /** Elements up to and including the closing bracket; at least one. */
  function ParseElements(s: string): (r: Parsed<seq<Value>>)
    ensures r.Done? ==> |r.rest| < |s|
    decreases |s|, 3
  {
    match ParseValue(s)
    case Fail => Fail
    case Done(v, t) =>
      var u := SkipSpace(t);
      if u == "" then Fail
      else if u[0] == ']' then Done([v], u[1..])
      else if u[0] == ',' then
        match ParseElements(u[1..])
        case Fail => Fail
        case Done(vs, rest) => Done([v] + vs, rest)
      else Fail
  }

  /** Members up to and including the closing brace, added to those of acc; at least one. */
  function ParseMembers(s: string, acc: map<string, Value>): (r: Parsed<map<string, Value>>)
    ensures r.Done? ==> |r.rest| < |s|
    decreases |s|, 3
  {
    var t := SkipSpace(s);
    if t == "" || t[0] != '"' then Fail
    else match ParseChars(t[1..])
      case Fail => Fail
      case Done(k, t1) =>
        if k in acc then Fail
        else
          var t2 := SkipSpace(t1);
          if t2 == "" || t2[0] != ':' then Fail
          else match ParseValue(t2[1..])
            case Fail => Fail
            case Done(v, t3) =>
              var u := SkipSpace(t3);
              if u == "" then Fail
              else if u[0] == '}' then Done(acc[k := v], u[1..])
              else if u[0] == ',' then ParseMembers(u[1..], acc[k := v])
              else Fail
  }

  /** parseDocument: one value and nothing but white space after it. */
  function ParseDocument(s: string): Option<Value> {
    match ParseValue(s)
    case Fail => None
    case Done(v, rest) => if SkipSpace(rest) == "" then Some(v) else None
  }
}
