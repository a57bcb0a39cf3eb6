/**
 Capability tokens: a signed grant, its generic (map) form and its wire form.
 Ed25519 is a parameter (`Scheme`), as are the Unicode tables behind the rule
 against invisible characters in branch names (`hidden`).
 */
module Grants {
  import opened Base
  import opened Json
  import opened Canonical
  import opened Documents
  import opened AgentCard
  import Base64Url
  import CanonicalSize
  import Instant
  import Paths
  import Utf8

  const GRANT_DOMAIN := "dorylinae-grant-v1\n"
  const MAX_TOKEN_BYTES := 2048
  const MIN_EXPIRY := 60
  const MAX_EXPIRY := 7 * 24 * 3600

  datatype Resource = Resource(kind: string, name: string, branch: string)

  datatype Grant = Grant(
    v: int, id: string, iss: string, aud: string, session: string, action: string, resource: Resource,
    scope: string, nbf: Instant.Time, exp: Instant.Time, sensitive: bool)

  datatype Token = Token(grant: Grant, sig: string)

  /** Key pairs, signing and verification. */
  datatype Scheme = Scheme(public: bytes -> bytes, sign: (bytes, bytes) -> bytes, verify: Ed25519)

  /** What Ed25519 promises about one private key. */
  ghost predicate Correct(sch: Scheme, priv: bytes) {
    && |sch.public(priv)| == 32
    && forall m: bytes :: |sch.sign(priv, m)| == 64 && sch.verify(sch.public(priv), m, sch.sign(priv, m))
  }

  // ---- Formats ----

  predicate LowerHex(c: char) { '0' <= c <= '9' || 'a' <= c <= 'f' }

  /** A letter, a dash and 32 lowercase hex digits. */
  predicate TaggedId(s: string, tag: char) {
    |s| == 34 && s[0] == tag && s[1] == '-' && forall i | 2 <= i < 34 :: LowerHex(s[i])
  }

  /** validKey: 43 characters of the alphabet that strictly decode to 32 bytes. */
  predicate ValidKey(s: string) { Base64Url.DecodeStrict(s, 32).Some? }

  predicate LabelOk(s: string) {
    1 <= |s| <= 64 && forall i | 0 <= i < |s| ::
      'a' <= s[i] <= 'z' || '0' <= s[i] <= '9' || s[i] == '.' || s[i] == '_' || s[i] == '-'
  }

  predicate Contains(s: string, sub: string) { sub <= s || (s != "" && Contains(s[1..], sub)) }

  predicate BranchOk(s: string, hidden: char -> bool) {
    && s != "" && CanonicalSize.Size(s) <= 255
    && (forall i | 0 <= i < |s| ::
          s[i] != ' ' && !Paths.AsciiControl(s[i]) && s[i] !in {'~', '^', ':', '?', '*', '[', '\\'} && !hidden(s[i]))
    && !Contains(s, "..") && s != "@" && !Contains(s, "@{") && !Contains(s, "//")
    && s[0] != '-' && s[0] != '/' && s[|s| - 1] != '.' && s[|s| - 1] != '/'
    && forall comp | comp in Paths.Split(s) ::
         !(comp != "" && comp[0] == '.') && !(|comp| >= 5 && comp[|comp| - 5..] == ".lock")
  }

  /** checkFormats. Its order of checks does not matter: any failure is the same error. */
  predicate CheckFormats(g: Grant, hidden: char -> bool) {
    && g.v == 1
    && TaggedId(g.id, 'g') && ValidKey(g.iss) && ValidKey(g.aud) && g.iss != g.aud && TaggedId(g.session, 's')
    && (g.action == "fs.read" || g.action == "git.read")
    && LabelOk(g.resource.name)
    && (|| (g.resource.kind == "fs" && g.resource.branch == "")
        || (g.resource.kind == "git" && BranchOk(g.resource.branch, hidden)))
    && (g.scope == "" || Paths.ValidScopePath(g.scope))
    && g.nbf != Instant.ZERO
    && Instant.Seconds(g.nbf) + MIN_EXPIRY <= Instant.Seconds(g.exp) <= Instant.Seconds(g.nbf) + MAX_EXPIRY
  }

  predicate CheckActionKind(g: Grant) {
    g.resource.kind == (if g.action == "git.read" then "git" else "fs")
  }

  /** Calendar dates exist (true of every time the library holds). */
  predicate TimesValid(g: Grant) { Instant.Valid(g.nbf) && Instant.Valid(g.exp) }

  // ---- Struct to map ----

  function ResourceMap(r: Resource): map<string, Value> {
    var m := map["kind" := Str(r.kind), "label" := Str(r.name)];
    if r.kind == "git" then m["branch" := Str(r.branch)] else m
  }

  function GrantMap(g: Grant): map<string, Value>
    requires TimesValid(g)
  {
    var m := PartyMembers(g) + TermMembers(g);
    if g.scope != "" then m["scope" := Str(g.scope)] else m
  }

  function PartyMembers(g: Grant): map<string, Value> {
    map["v" := Num("1"), "id" := Str(g.id), "iss" := Str(g.iss), "aud" := Str(g.aud), "session" := Str(g.session)]
  }

  function TermMembers(g: Grant): map<string, Value>
    requires TimesValid(g)
  {
    map["action" := Str(g.action), "resource" := Obj(ResourceMap(g.resource)),
        "nbf" := Str(Instant.Format(g.nbf)), "exp" := Str(Instant.Format(g.exp)), "sensitive" := Bool(g.sensitive)]
  }

  // ---- Map to struct ----

  /** json.Number.Int64 on a JSON literal. */
  function Int64(lit: string): Option<int> {
    if IntPattern(lit) && -0x8000_0000_0000_0000 <= IntValue(lit) < 0x8000_0000_0000_0000 then Some(IntValue(lit))
    else None
  }

  function TimeMember(m: map<string, Value>, k: string): Option<Instant.Time> {
    if k in m && m[k].Str? then Instant.Parse(m[k].s) else None
  }

  predicate HasString(m: map<string, Value>, k: string) { k in m && m[k].Str? }

  function DecodeResource(m: map<string, Value>): Option<Resource> {
    if !HasString(m, "kind") || !HasString(m, "label") then None
    else if m["kind"].s == "fs" && |m| == 2 then Some(Resource("fs", m["label"].s, ""))
    else if m["kind"].s == "git" && |m| == 3 && HasString(m, "branch") then
      Some(Resource("git", m["label"].s, m["branch"].s))
    else None
  }

  /** decodeGrant: exactly the members of a grant, with their types; scope absent or non-empty. */
  function DecodeGrant(m: map<string, Value>): Option<Grant> {
    if |m| != (if "scope" in m then 11 else 10) then None
    else if !("v" in m && m["v"].Num? && Int64(m["v"].lit).Some?) then None
    else if !(HasString(m, "id") && HasString(m, "iss") && HasString(m, "aud")
              && HasString(m, "session") && HasString(m, "action")) then None
    else if "scope" in m && !(m["scope"].Str? && m["scope"].s != "") then None
    else if !("sensitive" in m && m["sensitive"].Bool?) then None
    else if !("resource" in m && m["resource"].Obj?) then None
    else match (TimeMember(m, "nbf"), TimeMember(m, "exp"), DecodeResource(m["resource"].m))
      case (Some(nbf), Some(exp), Some(res)) =>
        Some(Grant(Int64(m["v"].lit).value, m["id"].s, m["iss"].s, m["aud"].s, m["session"].s, m["action"].s, res,
                   if "scope" in m then m["scope"].s else "", nbf, exp, m["sensitive"].b))
      case _ => None
  }

  // ---- The two forms undo each other ----

  lemma ResourceRoundTrip(r: Resource)
    requires (r.kind == "fs" && r.branch == "") || r.kind == "git"
    ensures DecodeResource(ResourceMap(r)) == Some(r)
  {
    assert |"kind"| == 4 && |"label"| == 5 && |"branch"| == 6;
    assert |"fs"| == 2 && |"git"| == 3;
  }

  lemma ResourceExact(m: map<string, Value>)
    requires DecodeResource(m).Some?
    ensures ResourceMap(DecodeResource(m).value) == m
  {
    assert |"kind"| == 4 && |"label"| == 5 && |"branch"| == 6;
    assert |"fs"| == 2 && |"git"| == 3;
    if |m| == 2 { OnlyKeys(m, {"kind", "label"}); } else { OnlyKeys(m, {"kind", "label", "branch"}); }
  }

  const NAMES := {"v", "id", "iss", "aud", "session", "action", "resource", "nbf", "exp", "sensitive"}

  lemma TenNames()
    ensures |NAMES| == 10 && "scope" !in NAMES
  {
    var v, id, iss, aud, ses, act, res, nbf, exp, sen, sco :=
      "v", "id", "iss", "aud", "session", "action", "resource", "nbf", "exp", "sensitive", "scope";
    assert |v| == 1 && |id| == 2 && |iss| == 3 && |aud| == 3 && |ses| == 7 && |act| == 6 && |res| == 8;
    assert |nbf| == 3 && |exp| == 3 && |sen| == 9 && |sco| == 5;
    assert iss[0] == 'i' && aud[0] == 'a' && nbf[0] == 'n' && exp[0] == 'e';
    assert NAMES == {v, id, iss, aud, ses} + {act, res, nbf, exp, sen};
    assert |{v, id, iss, aud, ses}| == 5 && |{act, res, nbf, exp, sen}| == 5;
    assert {v, id, iss, aud, ses} !! {act, res, nbf, exp, sen};
  }

  lemma PartyValues(g: Grant)
    ensures var m := PartyMembers(g);
      && m.Keys == {"v", "id", "iss", "aud", "session"}
      && m["v"] == Num("1") && m["id"] == Str(g.id) && m["iss"] == Str(g.iss) && m["aud"] == Str(g.aud)
      && m["session"] == Str(g.session)
  {
    assert |"v"| == 1 && |"id"| == 2 && |"iss"| == 3 && |"aud"| == 3 && |"session"| == 7;
    assert "iss"[0] == 'i' && "aud"[0] == 'a';
  }

  lemma TermValues(g: Grant)
    requires TimesValid(g)
    ensures var m := TermMembers(g);
      && m.Keys == {"action", "resource", "nbf", "exp", "sensitive"}
      && m["action"] == Str(g.action) && m["resource"] == Obj(ResourceMap(g.resource))
      && m["nbf"] == Str(Instant.Format(g.nbf)) && m["exp"] == Str(Instant.Format(g.exp))
      && m["sensitive"] == Bool(g.sensitive)
  {
    hide Instant.Format, ResourceMap;
    assert |"action"| == 6 && |"resource"| == 8 && |"nbf"| == 3 && |"exp"| == 3 && |"sensitive"| == 9;
    assert "nbf"[0] == 'n' && "exp"[0] == 'e';
  }

  lemma NamesApart()
    ensures {"v", "id", "iss", "aud", "session"} !! {"action", "resource", "nbf", "exp", "sensitive"}
    ensures NAMES == {"v", "id", "iss", "aud", "session"} + {"action", "resource", "nbf", "exp", "sensitive"}
  {
    TenNames();
    var v, id, iss, aud, ses, act, res, nbf, exp, sen :=
      "v", "id", "iss", "aud", "session", "action", "resource", "nbf", "exp", "sensitive";
    assert |v| == 1 && |id| == 2 && |iss| == 3 && |aud| == 3 && |ses| == 7 && |act| == 6 && |res| == 8;
    assert |nbf| == 3 && |exp| == 3 && |sen| == 9;
    assert iss[0] == 'i' && aud[0] == 'a' && nbf[0] == 'n' && exp[0] == 'e';
  }

  lemma GrantMapKeys(g: Grant)
    requires TimesValid(g)
    ensures GrantMap(g).Keys == NAMES + (if g.scope != "" then {"scope"} else {})
    ensures |GrantMap(g)| == (if g.scope != "" then 11 else 10) && ("scope" in GrantMap(g) <==> g.scope != "")
  {
    hide PartyMembers, TermMembers;
    TenNames();
    NamesApart();
    PartyValues(g);
    TermValues(g);
    var m := GrantMap(g);
    assert m.Keys == NAMES + (if g.scope != "" then {"scope"} else {});
  }

  lemma GrantMapValues(g: Grant)
    requires TimesValid(g)
    ensures var m := GrantMap(g);
      && NAMES <= m.Keys
      && m["v"] == Num("1") && m["id"] == Str(g.id) && m["iss"] == Str(g.iss) && m["aud"] == Str(g.aud)
      && m["session"] == Str(g.session) && m["action"] == Str(g.action) && m["resource"] == Obj(ResourceMap(g.resource))
      && m["nbf"] == Str(Instant.Format(g.nbf)) && m["exp"] == Str(Instant.Format(g.exp))
      && m["sensitive"] == Bool(g.sensitive)
      && ("scope" in m ==> m["scope"] == Str(g.scope))
  {
    hide PartyMembers, TermMembers, Instant.Format, ResourceMap;
    PartyValues(g);
    TermValues(g);
    NamesApart();
    GrantMapKeys(g);
    TenNames();
    var a, b := PartyMembers(g), TermMembers(g);
    assert forall k | k in a :: k in a.Keys && k !in b.Keys && k != "scope" && GrantMap(g)[k] == a[k];
    assert forall k | k in b :: k in b.Keys && k != "scope" && GrantMap(g)[k] == b[k];
  }

  /** The years a formatted time can be read back from. */
  predicate YearsReadable(g: Grant) { 0 <= g.nbf.year <= 9999 && 0 <= g.exp.year <= 9999 }

  lemma OneIsOne()
    ensures Int64("1") == Some(1)
  {
    assert "1"[..0] == "";
  }

  /** Decoding the map of a well-formed grant gives the grant back. */
  lemma DecodeOfMap(g: Grant, hidden: char -> bool)
    requires CheckFormats(g, hidden) && TimesValid(g) && YearsReadable(g)
    ensures DecodeGrant(GrantMap(g)) == Some(g)
  {
    hide Instant.Format, Instant.Parse, ResourceMap, DecodeResource, GrantMap, Int64, Instant.Valid, Instant.Seconds;
    GrantMapKeys(g);
    GrantMapValues(g);
    OneIsOne();
    Instant.ParseOfFormat(g.nbf);
    Instant.ParseOfFormat(g.exp);
    ResourceRoundTrip(g.resource);
  }

  lemma LeadingDigit(d: string)
    requires d != "" && forall i | 0 <= i < |d| :: IsDigit(d[i])
    requires '1' <= d[0]
    ensures DigitsValue(d) >= 1
    ensures |d| > 1 ==> DigitsValue(d) >= 10
  {
    if |d| > 1 {
      LeadingDigit(d[..|d| - 1]);
    } else {
      assert d[..0] == "";
    }
  }

  /** The only accepted spelling of the version is "1". */
  lemma VersionSpelling(lit: string)
    requires Int64(lit) == Some(1)
    ensures lit == "1"
  {
    if lit[0] != '-' && lit != "0" {
      LeadingDigit(lit);
      assert |lit| == 1;
      assert lit[..0] == "";
    }
  }

  lemma DecodedParts(m: map<string, Value>)
    requires DecodeGrant(m).Some?
    ensures var g := DecodeGrant(m).value;
      && NAMES <= m.Keys && |m| == (if "scope" in m then 11 else 10)
      && m["v"].Num? && Int64(m["v"].lit) == Some(g.v)
      && m["id"] == Str(g.id) && m["iss"] == Str(g.iss) && m["aud"] == Str(g.aud)
      && m["session"] == Str(g.session) && m["action"] == Str(g.action)
      && m["resource"].Obj? && DecodeResource(m["resource"].m) == Some(g.resource)
      && m["nbf"].Str? && Instant.Parse(m["nbf"].s) == Some(g.nbf)
      && m["exp"].Str? && Instant.Parse(m["exp"].s) == Some(g.exp)
      && m["sensitive"] == Bool(g.sensitive)
      && (if "scope" in m then m["scope"] == Str(g.scope) && g.scope != "" else g.scope == "")
  {
    hide DecodeResource, Instant.Parse, Int64;
  }

  /** A map that decodes to a grant of version 1 is that grant's own map: nothing signed is dropped or renamed. */
  lemma MapOfDecode(m: map<string, Value>)
    requires DecodeGrant(m).Some? && DecodeGrant(m).value.v == 1
    ensures var g := DecodeGrant(m).value; TimesValid(g) && YearsReadable(g) && GrantMap(g) == m
  {
    hide Instant.Format, Instant.Parse, ResourceMap, DecodeResource, GrantMap, Int64, Instant.Valid, DecodeGrant;
    var g := DecodeGrant(m).value;
    DecodedParts(m);
    VersionSpelling(m["v"].lit);
    Instant.FormatOfParse(m["nbf"].s);
    Instant.FormatOfParse(m["exp"].s);
    ResourceExact(m["resource"].m);
    TenNames();
    var names := NAMES + (if "scope" in m then {"scope"} else {});
    OnlyKeys(m, names);
    GrantMapKeys(g);
    SameMembers(m, g);
  }

  lemma SameMembers(m: map<string, Value>, g: Grant)
    requires TimesValid(g) && m.Keys == GrantMap(g).Keys && NAMES <= m.Keys
    requires m["v"] == Num("1") && m["id"] == Str(g.id) && m["iss"] == Str(g.iss) && m["aud"] == Str(g.aud)
    requires m["session"] == Str(g.session) && m["action"] == Str(g.action)
    requires m["resource"] == Obj(ResourceMap(g.resource)) && m["sensitive"] == Bool(g.sensitive)
    requires m["nbf"] == Str(Instant.Format(g.nbf)) && m["exp"] == Str(Instant.Format(g.exp))
    requires "scope" in m ==> m["scope"] == Str(g.scope)
    ensures GrantMap(g) == m
  {
    hide Instant.Format, ResourceMap, GrantMap, Instant.Valid;
    GrantMapKeys(g);
    GrantMapValues(g);
    forall k | k in m ensures GrantMap(g)[k] == m[k] {
      assert k in NAMES || k == "scope";
    }
  }

  // ---- Signing ----

  ghost function Wire(t: Token): bytes
    requires TimesValid(t.grant)
  {
    Utf8.Encode(Text(TokenValue(t)))
  }

  function TokenValue(t: Token): Value
    requires TimesValid(t.grant)
  {
    Obj(map["grant" := Obj(GrantMap(t.grant)), "sig" := Str(t.sig)])
  }

  ghost function SignedBytes(m: map<string, Value>): bytes {
    Utf8.Encode(GRANT_DOMAIN) + Utf8.Encode(Text(Obj(m)))
  }

  lemma PartyMembersAccepted(g: Grant)
    ensures Accepted(Obj(PartyMembers(g)))
  {
    assert CanonicalInt("1") by { OneIsOne(); }
    hide CanonicalInt;
  }

  lemma TermMembersAccepted(g: Grant)
    requires TimesValid(g)
    ensures Accepted(Obj(TermMembers(g)))
  {
    hide CanonicalInt, Instant.Format;
    assert Accepted(Obj(ResourceMap(g.resource)));
    hide ResourceMap;
  }

  lemma MergeAccepted(a: map<string, Value>, b: map<string, Value>, k: string, s: string)
    requires Accepted(Obj(a)) && Accepted(Obj(b))
    ensures Accepted(Obj(a + b)) && Accepted(Obj((a + b)[k := Str(s)]))
  {
    hide CanonicalInt;
    forall x | x in a + b ensures Accepted((a + b)[x]) { }
  }

  lemma GrantMapAccepted(g: Grant, sig: string)
    requires TimesValid(g)
    ensures Accepted(Obj(GrantMap(g))) && Accepted(TokenValue(Token(g, sig)))
  {
    PartyMembersAccepted(g);
    TermMembersAccepted(g);
    hide CanonicalInt, PartyMembers, TermMembers;
    MergeAccepted(PartyMembers(g), TermMembers(g), "scope", g.scope);
    assert Accepted(Obj(GrantMap(g)));
    hide GrantMap;
  }

  /** Sign: the times are already whole seconds in UTC. */
  ghost function Sign(sch: Scheme, priv: bytes, g: Grant, hidden: char -> bool): Option<Token>
    requires TimesValid(g)
  {
    if |priv| != 64 then None
    else if Instant.Parse(Instant.Format(g.nbf)).None? || Instant.Parse(Instant.Format(g.exp)).None? then None
    else if !CheckFormats(g, hidden) || !CheckActionKind(g) then None
    else if Base64Url.Encode(sch.public(priv)) != g.iss then None
    else
      var tok := Token(g, Base64Url.Encode(sch.sign(priv, SignedBytes(GrantMap(g)))));
      if |Wire(tok)| > MAX_TOKEN_BYTES then None else Some(tok)
  }

  // ---- Verification ----

  datatype Role = Holder | Grantor

  /** now is in nanoseconds since the start of year 1. */
  datatype Params = Params(
    role: Role, self: string, counterparty: string, now: int,
    sessionOpen: Option<(string, string, string) -> (bool, bool)>)

  datatype Reason =
    | Malformed | WrongIssuer | BadSignature | WrongAudience | NotYetValid | Expired | UnknownSession | SessionNotOpen

  datatype Verdict = Verified(grant: Grant) | Rejected(step: nat, reason: Reason)

  const NANOS := 1_000_000_000

  /** parseToken: exactly a grant object and a signature text, read strictly. */
  function ParseToken(raw: bytes): Option<(map<string, Value>, Token)> {
    match ParseStrict(raw)
    case None => None
    case Some(doc) =>
      if doc.Obj? && |doc.m| == 2 && "grant" in doc.m && doc.m["grant"].Obj? && HasString(doc.m, "sig") then
        match DecodeGrant(doc.m["grant"].m)
        case None => None
        case Some(g) => Some((doc.m["grant"].m, Token(g, doc.m["sig"].s)))
      else None
  }

  /** Steps 5 to 8: audience, times, session, action. */
  function LaterSteps(g: Grant, p: Params): Verdict {
    if g.aud != (if p.role.Grantor? then p.counterparty else p.self) then Rejected(5, WrongAudience)
    else if Instant.Seconds(g.nbf) * NANOS > p.now + 600 * NANOS then Rejected(6, NotYetValid)
    else if p.now >= Instant.Seconds(g.exp) * NANOS then Rejected(6, Expired)
    else if p.sessionOpen.None? then Rejected(7, UnknownSession)
    else
      var (known, open) := p.sessionOpen.value(g.session, g.iss, g.aud);
      if !known then Rejected(7, UnknownSession)
      else if !open then Rejected(7, SessionNotOpen)
      else if !CheckActionKind(g) then Rejected(8, Malformed)
      else Verified(g)
  }

  function ExpectedIssuer(p: Params): string { if p.role.Holder? then p.counterparty else p.self }

  ghost function VerifyToken(
    sch: Scheme, gen: map<string, Value>, tok: Token, p: Params, hidden: char -> bool): Verdict
  {
    var g := tok.grant;
    if !CheckFormats(g, hidden) then Rejected(2, Malformed)
    else if g.iss != ExpectedIssuer(p) then Rejected(3, WrongIssuer)
    else match (Base64Url.DecodeStrict(g.iss, 32), Base64Url.DecodeStrict(tok.sig, 64))
      case (Some(key), Some(sig)) =>
        if Accepted(Obj(gen)) && sch.verify(key, SignedBytes(gen), sig) then LaterSteps(g, p)
        else Rejected(4, BadSignature)
      case _ => Rejected(4, BadSignature)
  }

  /** Verify, steps 1 to 8. */
  ghost function Verify(sch: Scheme, raw: bytes, p: Params, hidden: char -> bool): Verdict {
    if |raw| > MAX_TOKEN_BYTES then Rejected(1, Malformed)
    else match ParseToken(raw)
      case None => Rejected(1, Malformed)
      case Some((gen, tok)) => VerifyToken(sch, gen, tok, p, hidden)
  }

  // ---- The conditions of grant.md, on the grant and the verifying party ----

  /** The grantor is the one expected: for a holder the other party, for a grantor itself. */
  predicate FromGrantor(g: Grant, p: Params) {
    g.iss == match p.role case Holder => p.counterparty case Grantor => p.self
  }

  predicate ForHolder(g: Grant, p: Params) {
    g.aud == match p.role case Holder => p.self case Grantor => p.counterparty
  }

  /** Its time has come, ten minutes of clock difference allowed. */
  predicate HasBegun(g: Grant, p: Params) { Instant.Seconds(g.nbf) * 1_000_000_000 <= p.now + 600 * 1_000_000_000 }

  predicate IsCurrent(g: Grant, p: Params) { p.now < Instant.Seconds(g.exp) * 1_000_000_000 }

  predicate KnowsSession(g: Grant, p: Params) {
    p.sessionOpen.Some? && p.sessionOpen.value(g.session, g.iss, g.aud).0
  }

  predicate SessionIsOpen(g: Grant, p: Params) {
    p.sessionOpen.Some? && p.sessionOpen.value(g.session, g.iss, g.aud).1
  }

  predicate KindFits(g: Grant) {
    (g.action == "fs.read" && g.resource.kind == "fs") || (g.action == "git.read" && g.resource.kind == "git")
  }

  /** The grant is for this party, now, in an open session. */
  predicate Applies(g: Grant, p: Params) {
    && FromGrantor(g, p) && ForHolder(g, p)
    && HasBegun(g, p) && IsCurrent(g, p)
    && KnowsSession(g, p) && SessionIsOpen(g, p)
  }

  /** The step and reason of the first condition that fails. */
  predicate FirstFailure(g: Grant, p: Params, v: Verdict) {
    && (!FromGrantor(g, p) ==> v == Rejected(3, WrongIssuer))
    && (FromGrantor(g, p) && !ForHolder(g, p) ==> v == Rejected(5, WrongAudience))
    && (FromGrantor(g, p) && ForHolder(g, p) && !HasBegun(g, p) ==> v == Rejected(6, NotYetValid))
    && (FromGrantor(g, p) && ForHolder(g, p) && HasBegun(g, p) && !IsCurrent(g, p) ==> v == Rejected(6, Expired))
    && (FromGrantor(g, p) && ForHolder(g, p) && HasBegun(g, p) && IsCurrent(g, p) && !KnowsSession(g, p) ==>
          v == Rejected(7, UnknownSession))
    && (FromGrantor(g, p) && ForHolder(g, p) && HasBegun(g, p) && IsCurrent(g, p) && KnowsSession(g, p) ==>
          SessionIsOpen(g, p) || v == Rejected(7, SessionNotOpen))
  }

  lemma LaterStepsAre(g: Grant, p: Params)
    requires g.action == "fs.read" || g.action == "git.read"
    ensures ExpectedIssuer(p) == g.iss <==> FromGrantor(g, p)
    ensures CheckActionKind(g) <==> KindFits(g)
    ensures FromGrantor(g, p) ==> (LaterSteps(g, p) == Verified(g) <==> Applies(g, p) && KindFits(g))
    ensures FromGrantor(g, p) ==> LaterSteps(g, p) == Verified(g) || LaterSteps(g, p).Rejected?
    ensures FromGrantor(g, p) && !Applies(g, p) ==> FirstFailure(g, p, LaterSteps(g, p))
  {
    assert |"fs.read"| == 7 && |"git.read"| == 8 && |"fs"| == 2 && |"git"| == 3;
  }

  lemma TokenValueParts(t: Token)
    requires TimesValid(t.grant)
    ensures var d := TokenValue(t);
      && d.Obj? && |d.m| == 2 && "grant" in d.m && d.m["grant"] == Obj(GrantMap(t.grant))
      && "sig" in d.m && d.m["sig"] == Str(t.sig)
  {
    hide GrantMap;
    assert |"grant"| == 5 && |"sig"| == 3;
  }

  lemma ParseOfWire(t: Token, hidden: char -> bool)
    requires TimesValid(t.grant) && YearsReadable(t.grant) && CheckFormats(t.grant, hidden)
    ensures ParseToken(Wire(t)) == Some((GrantMap(t.grant), t))
  {
    hide Text, ParseStrict, GrantMap, DecodeGrant, TokenValue, CheckFormats;
    GrantMapAccepted(t.grant, t.sig);
    StrictRoundTrip(TokenValue(t));
    TokenValueParts(t);
    DecodeOfMap(t.grant, hidden);
  }

  lemma SignedSteps(sch: Scheme, priv: bytes, g: Grant, hidden: char -> bool, p: Params)
    requires TimesValid(g) && Correct(sch, priv) && Sign(sch, priv, g, hidden).Some?
    ensures CheckFormats(g, hidden) && CheckActionKind(g)
    ensures Verify(sch, Wire(Sign(sch, priv, g, hidden).value), p, hidden)
         == if g.iss != ExpectedIssuer(p) then Rejected(3, WrongIssuer) else LaterSteps(g, p)
  {
    hide Instant.Format, Instant.Parse, GrantMap, Wire, SignedBytes, CheckFormats, LaterSteps, Accepted, ParseToken,
      Base64Url.Encode, Base64Url.DecodeStrict, CheckActionKind;
    var tok := Sign(sch, priv, g, hidden).value;
    SignedYears(g);
    ParseOfWire(tok, hidden);
    GrantMapAccepted(g, tok.sig);
    Base64Url.DecodeIsInverse(g.iss, sch.public(priv));
    Base64Url.DecodeIsInverse(tok.sig, sch.sign(priv, SignedBytes(GrantMap(g))));
  }

  /** A signed token verifies, as the grant that was signed, exactly for whom and when the grant applies. */
  lemma SignedTokenVerifies(sch: Scheme, priv: bytes, g: Grant, hidden: char -> bool, p: Params)
    requires TimesValid(g) && Correct(sch, priv) && Sign(sch, priv, g, hidden).Some?
    ensures var v := Verify(sch, Wire(Sign(sch, priv, g, hidden).value), p, hidden);
            && (v == Verified(g) <==> Applies(g, p))
            && (!Applies(g, p) ==> FirstFailure(g, p, v))
  {
    hide Verify, Sign, Wire, LaterSteps, Correct, ExpectedIssuer, KindFits;
    SignedSteps(sch, priv, g, hidden, p);
    ActionChecked(g, hidden);
    LaterStepsAre(g, p);
  }

  lemma ActionChecked(g: Grant, hidden: char -> bool)
    requires CheckFormats(g, hidden)
    ensures g.v == 1 && (g.action == "fs.read" || g.action == "git.read")
  {
    hide BranchOk, LabelOk, ValidKey, TaggedId, Paths.ValidScopePath, Instant.Seconds;
  }

  lemma SignedYears(g: Grant)
    requires TimesValid(g) && Instant.Parse(Instant.Format(g.nbf)).Some? && Instant.Parse(Instant.Format(g.exp)).Some?
    ensures YearsReadable(g)
  {
    hide Instant.Format;
    if !(0 <= g.nbf.year <= 9999) { Instant.LongYear(g.nbf); }
    if !(0 <= g.exp.year <= 9999) { Instant.LongYear(g.exp); }
  }

  lemma VerifiedStep(sch: Scheme, gen: map<string, Value>, tok: Token, p: Params, hidden: char -> bool)
    requires VerifyToken(sch, gen, tok, p, hidden).Verified?
    ensures var g := tok.grant;
      && VerifyToken(sch, gen, tok, p, hidden).grant == g
      && CheckFormats(g, hidden) && CheckActionKind(g) && g.iss == ExpectedIssuer(p)
      && LaterSteps(g, p) == Verified(g)
      && Base64Url.DecodeStrict(g.iss, 32).Some? && Base64Url.DecodeStrict(tok.sig, 64).Some?
      && Accepted(Obj(gen))
      && sch.verify(Base64Url.DecodeStrict(g.iss, 32).value, SignedBytes(gen),
                    Base64Url.DecodeStrict(tok.sig, 64).value)
  {
    hide CheckFormats, Accepted, SignedBytes, Base64Url.DecodeStrict, CheckActionKind;
  }

  /** Whatever Verify returns is what the issuer signed: the signature holds over the canonical form of the returned
      grant, and the token's canonical wire form is rebuilt from the returned grant alone. */
  lemma VerifiedIsSigned(sch: Scheme, raw: bytes, p: Params, hidden: char -> bool)
    requires Verify(sch, raw, p, hidden).Verified?
    ensures var g := Verify(sch, raw, p, hidden).grant;
      && TimesValid(g) && CheckFormats(g, hidden) && KindFits(g) && Applies(g, p) && |raw| <= 2048
      && ParseToken(raw).Some?
      && var sigText := ParseToken(raw).value.1.sig;
      && ParseStrict(raw) == Some(TokenValue(Token(g, sigText)))
      && Base64Url.DecodeStrict(g.iss, 32).Some? && Base64Url.DecodeStrict(sigText, 64).Some?
      && sch.verify(Base64Url.DecodeStrict(g.iss, 32).value, SignedBytes(GrantMap(g)),
                    Base64Url.DecodeStrict(sigText, 64).value)
  {
    hide ParseStrict, GrantMap, DecodeGrant, CheckFormats, LaterSteps, Accepted, SignedBytes, VerifyToken,
      Base64Url.DecodeStrict, CheckActionKind, Instant.Valid;
    var (gen, tok) := ParseToken(raw).value;
    VerifiedStep(sch, gen, tok, p, hidden);
    ActionChecked(tok.grant, hidden);
    LaterStepsAre(tok.grant, p);
    hide Applies, KindFits, ExpectedIssuer;
    MapOfDecode(gen);
    var doc := ParseStrict(raw).value;
    OnlyKeys(doc.m, {"grant", "sig"}) by { assert |"grant"| == 5 && |"sig"| == 3; }
    assert doc.m == TokenValue(tok).m by { TokenValueParts(tok); assert doc.m.Keys == TokenValue(tok).m.Keys; }
  }

  /** The token's signature text is a signature of the grant under its issuer's key. */
  ghost predicate SignatureHolds(sch: Scheme, g: Grant, sigText: string)
    requires TimesValid(g)
  {
    && Base64Url.DecodeStrict(g.iss, 32).Some? && Base64Url.DecodeStrict(sigText, 64).Some?
    && sch.verify(Base64Url.DecodeStrict(g.iss, 32).value, SignedBytes(GrantMap(g)),
                  Base64Url.DecodeStrict(sigText, 64).value)
  }

  /** The bytes are a token of this grant, with this signature text, in any spelling. */
  predicate IsToken(raw: bytes, g: Grant, sigText: string) {
    TimesValid(g) && YearsReadable(g) && |raw| <= 2048 && ParseStrict(raw) == Some(TokenValue(Token(g, sigText)))
  }

  /**
   For every byte string: Verify returns a grant if and only if the bytes are a token of that
   grant, well formed and signed by its issuer, and the grant applies.
   */
  lemma VerifiedExactly(sch: Scheme, raw: bytes, p: Params, hidden: char -> bool, g: Grant)
    ensures Verify(sch, raw, p, hidden) == Verified(g)
       <==> && CheckFormats(g, hidden) && KindFits(g) && Applies(g, p)
            && exists sigText :: IsToken(raw, g, sigText) && SignatureHolds(sch, g, sigText)
  {
    hide ParseStrict, Verify, ParseToken, CheckFormats, KindFits, Applies, TokenValue, Instant.Valid, GrantMap,
      Base64Url.DecodeStrict, SignedBytes;
    if Verify(sch, raw, p, hidden) == Verified(g) {
      VerifiedIsSigned(sch, raw, p, hidden);
      VerifiedYears(sch, raw, p, hidden);
      assert IsToken(raw, g, ParseToken(raw).value.1.sig);
    }
    if CheckFormats(g, hidden) && KindFits(g) && Applies(g, p) {
      if sigText :| IsToken(raw, g, sigText) && SignatureHolds(sch, g, sigText) {
        TokenVerifies(sch, raw, p, hidden, g, sigText);
      }
    }
  }

  lemma VerifiedYears(sch: Scheme, raw: bytes, p: Params, hidden: char -> bool)
    requires Verify(sch, raw, p, hidden).Verified?
    ensures YearsReadable(Verify(sch, raw, p, hidden).grant)
  {
    hide ParseStrict, GrantMap, DecodeGrant, CheckFormats, LaterSteps, Accepted, SignedBytes, VerifyToken,
      Base64Url.DecodeStrict, CheckActionKind, Instant.Valid;
    var (gen, tok) := ParseToken(raw).value;
    VerifiedStep(sch, gen, tok, p, hidden);
    ActionChecked(tok.grant, hidden);
    MapOfDecode(gen);
  }

  lemma TokenVerifies(sch: Scheme, raw: bytes, p: Params, hidden: char -> bool, g: Grant, sigText: string)
    requires CheckFormats(g, hidden) && KindFits(g) && Applies(g, p)
    requires IsToken(raw, g, sigText) && SignatureHolds(sch, g, sigText)
    ensures Verify(sch, raw, p, hidden) == Verified(g)
  {
    hide ParseStrict, GrantMap, DecodeGrant, CheckFormats, LaterSteps, Accepted, SignedBytes, Base64Url.DecodeStrict,
      TokenValue, Instant.Valid;
    var tok := Token(g, sigText);
    TokenValueParts(tok);
    DecodeOfMap(g, hidden);
    assert ParseToken(raw) == Some((GrantMap(g), tok));
    GrantMapAccepted(g, sigText);
    ActionChecked(g, hidden);
    LaterStepsAre(g, p);
    hide KindFits, ParseToken;
  }

  // ---- Formats, spelled out ----

  /** A tag, a dash and 32 lowercase hex digits. */
  ghost predicate IdOf(s: string, tag: string) {
    exists hex: string :: s == tag + "-" + hex && |hex| == 32 && forall c | c in hex :: c in "0123456789abcdef"
  }

  lemma TaggedIdIs(s: string, tag: char)
    ensures TaggedId(s, tag) <==> IdOf(s, [tag])
  {
    if TaggedId(s, tag) {
      var hex := s[2..];
      assert s == [tag] + "-" + hex;
      forall c | c in hex ensures c in "0123456789abcdef" {
        var i :| 0 <= i < |hex| && hex[i] == c;
        assert hex[i] == s[i + 2];
        HexLetter(c);
      }
    }
    if hex: string :| s == [tag] + "-" + hex && |hex| == 32 && forall c | c in hex :: c in "0123456789abcdef" {
      forall i | 2 <= i < 34 ensures LowerHex(s[i]) {
        assert s[i] == hex[i - 2] && hex[i - 2] in hex;
        HexLetter(s[i]);
      }
    }
  }

  lemma HexLetter(c: char)
    ensures LowerHex(c) <==> c in "0123456789abcdef"
  {
    if '0' <= c <= '9' { assert "0123456789abcdef"[c as int - '0' as int] == c; }
    if 'a' <= c <= 'f' { assert "0123456789abcdef"[c as int - 'a' as int + 10] == c; }
  }

  /** What the format checks demand, and nothing more. */
  lemma FormatsExact(g: Grant, hidden: char -> bool)
    ensures CheckFormats(g, hidden)
       <==> && g.v == 1 && IdOf(g.id, "g") && IdOf(g.session, "s")
            && Base64Url.IsEncoding(g.iss, 32) && Base64Url.IsEncoding(g.aud, 32) && g.iss != g.aud
            && g.action in {"fs.read", "git.read"} && LabelOk(g.resource.name)
            && (g.resource.kind == "fs" || g.resource.kind == "git")
            && (g.resource.kind == "fs" ==> g.resource.branch == "")
            && (g.resource.kind == "git" ==> BranchOk(g.resource.branch, hidden))
            && (g.scope != "" ==> Paths.ValidScopePath(g.scope)) && g.nbf != Instant.ZERO
            && 60 <= Instant.Seconds(g.exp) - Instant.Seconds(g.nbf) <= 7 * 24 * 3600
  {
    assert |"fs"| == 2 && |"git"| == 3;
    assert ['g'] == "g" && ['s'] == "s";
    TaggedIdIs(g.id, 'g');
    TaggedIdIs(g.session, 's');
    Base64Url.AcceptsExactlyEncodings(g.iss, 32);
    Base64Url.AcceptsExactlyEncodings(g.aud, 32);
    hide BranchOk, LabelOk, TaggedId, Paths.ValidScopePath, Instant.Seconds, IdOf, Base64Url.IsEncoding,
      Base64Url.DecodeStrict;
  }
}
