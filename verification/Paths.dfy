/** The path grammar of grant scopes and fetch requests, and why a fetch cannot leave its scope. */
module Paths {
  import CanonicalSize
  import Utf8

  /** strings.Split(s, "/"). */
  function Split(s: string): (segs: seq<string>)
    ensures segs != []
  {
    if s == "" then [""]
    else if s[0] == '/' then [""] + Split(s[1..])
    else
      var rest := Split(s[1..]);
      [[s[0]] + rest[0]] + rest[1..]
  }

  predicate AsciiControl(c: char) { c == Utf8.REPLACEMENT || c as int <= 0x1F || c as int == 0x7F }

  predicate PathControl(c: char) {
    var v := c as int;
    || AsciiControl(c) || 0x80 <= v <= 0x9F
    || v == 0x061C || v == 0x200E || v == 0x200F || 0x202A <= v <= 0x202E || 0x2066 <= v <= 0x2069
  }

  predicate EndsWith(s: string, c: char) { s != "" && s[|s| - 1] == c }

  /** The part of a segment before its first dot. */
  function Stem(s: string): string {
    if s == "" || s[0] == '.' then "" else [s[0]] + Stem(s[1..])
  }

  function TrimSpaces(s: string): string {
    if EndsWith(s, ' ') then TrimSpaces(s[..|s| - 1]) else s
  }

  /** Upper case, for the letters whose upper case is ASCII (a to z, and the two below). */
  function Upper(c: char): char {
    if 'a' <= c <= 'z' then c - 'a' + 'A'
    else if c == '\U{131}' then 'I'
    else if c == '\U{17F}' then 'S'
    else c
  }

  function UpperAll(s: string): string { seq(|s|, i requires 0 <= i < |s| => Upper(s[i])) }

  predicate WindowsReserved(seg: string) {
    var name := UpperAll(TrimSpaces(Stem(seg)));
    || name in {"CON", "PRN", "AUX", "NUL", "CONIN$", "CONOUT$"}
    || (|name| == 4 && name[..3] in {"COM", "LPT"}
        && (('1' <= name[3] <= '9') || name[3] in {'\U{B9}', '\U{B2}', '\U{B3}'}))
  }

  predicate ValidSegment(seg: string) {
    seg != "" && seg != "." && seg != ".." && !EndsWith(seg, '.') && !EndsWith(seg, ' ') && !WindowsReserved(seg)
  }

  /** ValidScopePath. A leading or trailing slash gives an empty segment, so the segment rule covers it. */
  predicate ValidScopePath(s: string) {
    && CanonicalSize.Size(s) <= 1024
    && (s != "" ==>
        && s[0] != '/' && s[|s| - 1] != '/'
        && (forall i | 0 <= i < |s| :: s[i] != '\\' && s[i] != ':' && !PathControl(s[i]))
        && (forall seg | seg in Split(s) :: ValidSegment(seg)))
  }

  /** joinScope: the effective path of a request. */
  function JoinScope(scope: string, path: string): string {
    if scope == "" then path else if path == "" then scope else scope + "/" + path
  }

  /** The segments of a path; none for the empty path (SplitEffective of one part). */
  function Segments(p: string): seq<string> { if p == "" then [] else Split(p) }

  lemma {:induction false} SplitJoin(a: string, b: string)
    ensures Split(a + "/" + b) == Split(a) + Split(b)
  {
    var s := a + "/" + b;
    if a == "" {
      assert s[1..] == b;
    } else {
      assert s[1..] == a[1..] + "/" + b;
      SplitJoin(a[1..], b);
    }
  }

  /** The effective path walks down from the scope: its segments are the scope's followed by the request's,
      and none of them is empty, "." or "..", so it names nothing outside the scope. */
  lemma EffectivePathStaysInScope(scope: string, path: string)
    requires ValidScopePath(scope) && ValidScopePath(path)
    ensures var segs := Segments(JoinScope(scope, path));
      && segs == Segments(scope) + Segments(path)
      && forall i | 0 <= i < |segs| :: segs[i] != "" && segs[i] != "." && segs[i] != ".."
  {
    hide Split, WindowsReserved, PathControl, EndsWith, CanonicalSize.Size;
    SplitJoin(scope, path);
    var segs := Segments(JoinScope(scope, path));
    forall i | 0 <= i < |segs| ensures ValidSegment(segs[i]) {
      if i < |Segments(scope)| {
        assert segs[i] == Segments(scope)[i];
      } else {
        assert segs[i] == Segments(path)[i - |Segments(scope)|];
      }
    }
  }

  /** scopeWithin: inside or equal, compared segment by segment. */
  method ScopeWithin(child: string, parent: string) returns (within: bool)
    ensures within == (Segments(parent) <= Segments(child))
  {
    if parent == "" { return true; }
    if child == "" { return false; }
    var pseg, cseg := Split(parent), Split(child);
    if |cseg| < |pseg| { return false; }
    for i := 0 to |pseg|
      invariant pseg[..i] == cseg[..i]
    {
      if cseg[i] != pseg[i] { return false; }
    }
    return true;
  }

  /** A request under a scope that a policy covers stays under the policy's scope. */
  lemma CoveredRequestStaysCovered(policy: string, scope: string, path: string)
    requires ValidScopePath(scope) && ValidScopePath(path)
    requires Segments(policy) <= Segments(scope)
    ensures Segments(policy) <= Segments(JoinScope(scope, path))
  {
    EffectivePathStaysInScope(scope, path);
  }

  // ---- The grammar, written forwards ----

  function Join(segs: seq<string>): string
    requires segs != []
  {
    if |segs| == 1 then segs[0] else segs[0] + "/" + Join(segs[1..])
  }

  predicate NoSlash(segs: seq<string>) { forall i | 0 <= i < |segs| :: '/' !in segs[i] }

  lemma {:induction false} SplitPlain(s: string)
    requires '/' !in s
    ensures Split(s) == [s]
  {
    if s != "" {
      assert s[0] in s;
      SplitPlain(s[1..]);
      assert s == [s[0]] + s[1..];
    }
  }

  lemma {:induction false} SplitOfJoin(segs: seq<string>)
    requires segs != [] && NoSlash(segs)
    ensures Split(Join(segs)) == segs
  {
    SplitPlain(segs[0]);
    if |segs| > 1 {
      SplitOfJoin(segs[1..]);
      SplitJoin(segs[0], Join(segs[1..]));
    }
  }

  lemma {:induction false} JoinOfSplit(s: string)
    ensures Join(Split(s)) == s && NoSlash(Split(s))
  {
    if s != "" {
      var rest := Split(s[1..]);
      JoinOfSplit(s[1..]);
      if s[0] == '/' {
        assert Split(s)[1..] == rest;
      } else {
        assert Split(s)[0] == [s[0]] + rest[0] && Split(s)[1..] == rest[1..];
        if |rest| > 1 {
          assert Join(Split(s)) == [s[0]] + (rest[0] + "/" + Join(rest[1..]));
        } else {
          assert Join(Split(s)) == [s[0]] + rest[0];
        }
        assert s == [s[0]] + s[1..];
      }
    }
  }

  /** A name that may stand between two slashes. */
  predicate Name(seg: string) {
    && seg != "" && seg != "." && seg != ".." && seg[|seg| - 1] != '.' && seg[|seg| - 1] != ' ' && !WindowsReserved(seg)
    && forall c | c in seg :: c != '/' && c != '\\' && c != ':' && !PathControl(c)
  }

  /** The empty path, or names with slashes between them, in at most 1024 bytes. */
  ghost predicate Grammatical(s: string) {
    && |Utf8.Encode(s)| <= 1024
    && (s == "" || exists segs :: segs != [] && s == Join(segs) && forall i | 0 <= i < |segs| :: Name(segs[i]))
  }

  lemma {:induction false} CharsOfJoin(segs: seq<string>, c: char)
    requires segs != [] && c != '/'
    ensures c in Join(segs) <==> exists i :: 0 <= i < |segs| && c in segs[i]
  {
    if |segs| > 1 {
      CharsOfJoin(segs[1..], c);
      if c in segs[0] { assert c in Join(segs); }
      if c in Join(segs[1..]) {
        var i :| 0 <= i < |segs[1..]| && c in segs[1..][i];
        assert c in segs[i + 1];
      }
      if i :| 0 <= i < |segs| && c in segs[i] {
        if i > 0 { assert c in segs[1..][i - 1]; }
      }
    } else if c in segs[0] {
      assert c in segs[0];
    }
  }

  lemma NamesAreSegments(segs: seq<string>)
    requires segs != [] && forall i | 0 <= i < |segs| :: Name(segs[i])
    ensures var s := Join(segs);
            && s != "" && Split(s) == segs
            && (forall i | 0 <= i < |s| :: s[i] != '\\' && s[i] != ':' && !PathControl(s[i]))
            && forall seg | seg in Split(s) :: ValidSegment(seg)
  {
    hide WindowsReserved, PathControl;
    assert NoSlash(segs) by { forall i | 0 <= i < |segs| ensures '/' !in segs[i] { assert Name(segs[i]); } }
    SplitOfJoin(segs);
    var s := Join(segs);
    forall i | 0 <= i < |s| ensures s[i] != '\\' && s[i] != ':' && !PathControl(s[i]) {
      if s[i] != '/' {
        CharsOfJoin(segs, s[i]);
        var k :| 0 <= k < |segs| && s[i] in segs[k];
        assert Name(segs[k]);
      } else {
        SlashIsPlain();
      }
    }
    assert Name(segs[0]);
  }

  lemma SlashIsPlain()
    ensures !PathControl('/')
  {
  }

  lemma {:induction false} JoinEnds(segs: seq<string>)
    requires segs != [] && forall i | 0 <= i < |segs| :: segs[i] != "" && '/' !in segs[i]
    ensures var s := Join(segs); s != "" && s[0] != '/' && s[|s| - 1] != '/'
  {
    assert segs[0][0] in segs[0] && segs[0][|segs[0]| - 1] in segs[0];
    if |segs| > 1 { JoinEnds(segs[1..]); }
  }

  lemma SegmentsAreNames(s: string)
    requires ValidScopePath(s) && s != ""
    ensures forall i | 0 <= i < |Split(s)| :: Name(Split(s)[i])
  {
    hide WindowsReserved, PathControl, CanonicalSize.Size;
    JoinOfSplit(s);
    var segs := Split(s);
    forall i | 0 <= i < |segs| ensures Name(segs[i]) {
      assert segs[i] in segs && ValidSegment(segs[i]);
      forall c | c in segs[i] ensures c != '/' && c != '\\' && c != ':' && !PathControl(c) {
        CharsOfJoin(segs, c);
        var k :| 0 <= k < |s| && s[k] == c;
      }
    }
  }

  /** ValidScopePath accepts exactly the paths of the grammar. */
  lemma ScopePathExact(s: string)
    ensures ValidScopePath(s) <==> Grammatical(s)
  {
    CanonicalSize.SizeIsEncoded(s);
    hide WindowsReserved, PathControl, CanonicalSize.Size, Utf8.Encode, Join;
    if ValidScopePath(s) && s != "" {
      JoinOfSplit(s);
      SegmentsAreNames(s);
    }
    if Grammatical(s) && s != "" {
      var segs :| segs != [] && s == Join(segs) && forall i | 0 <= i < |segs| :: Name(segs[i]);
      NamesAreSegments(segs);
      forall i | 0 <= i < |segs| ensures segs[i] != "" && '/' !in segs[i] { assert Name(segs[i]); }
      JoinEnds(segs);
    }
  }
}
