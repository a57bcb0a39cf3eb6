/**
 The signed agent card: verification of an envelope, and the stored form
 that is kept and forwarded. Ed25519 verification is a parameter,
 `ed(publicKey, message, signature)`.
 */
module AgentCard {
  import opened Base
  import opened Json
  import opened Canonical
  import opened Documents
  import Base64Url
  import CanonicalSize
  import Instant
  import Utf8

  const DOMAIN := "dorylinae-agent-card-v1\n"
  const MAX_TEXT := 128
  const MAX_CARD_BYTES := 16384
  const MAX_SKILLS := 32

  type Ed25519 = (bytes, bytes, bytes) -> bool

  datatype Skill = Skill(id: string, name: string, description: string)
  datatype Card = Card(name: string, publicKey: string, harness: string, skills: seq<Skill>, created: string)
  datatype Signed = Signed(card: Card, signature: string)

  // ---- Text and schema rules ----

  predicate UnicodeControl(c: char) { c as int < 0x20 || 0x7F <= c as int < 0xA0 }

  predicate BidiOrSeparator(c: char) {
    var v := c as int;
    || v == 0x061C || v == 0x200E || v == 0x200F || 0x202A <= v <= 0x202E || 0x2066 <= v <= 0x2069
    || v == 0x2028 || v == 0x2029
  }

  predicate TextOk(s: string, required: bool, legacy: bool) {
    && (required ==> s != "")
    && |s| <= MAX_TEXT
    && forall i | 0 <= i < |s| ::
         !UnicodeControl(s[i]) && s[i] != Utf8.REPLACEMENT && (legacy || !BidiOrSeparator(s[i]))
  }

  predicate SkillOk(s: Skill, legacy: bool) {
    TextOk(s.id, true, legacy) && TextOk(s.name, true, legacy) && TextOk(s.description, false, legacy)
  }

  predicate Validate(c: Card, legacy: bool) {
    && TextOk(c.name, true, legacy)
    && TextOk(c.harness, true, legacy)
    && Base64Url.DecodeStrict(c.publicKey, 32).Some?
    && |c.skills| <= MAX_SKILLS
    && (forall i | 0 <= i < |c.skills| :: SkillOk(c.skills[i], legacy))
    && Instant.Parse(c.created).Some?
  }

  // ---- The card as a generic object ----

  const CARD_MEMBERS := {"version", "name", "public_key", "harness", "skills", "created"}
  const SKILL_MEMBERS := {"id", "name", "description"}

  function SkillValue(s: Skill): Value {
    Obj(map["id" := Str(s.id), "name" := Str(s.name), "description" := Str(s.description)])
  }

  function CardMap(c: Card): map<string, Value> {
    map["version" := Num("1"), "name" := Str(c.name), "public_key" := Str(c.publicKey), "harness" := Str(c.harness),
        "skills" := Arr(seq(|c.skills|, i requires 0 <= i < |c.skills| => SkillValue(c.skills[i]))),
        "created" := Str(c.created)]
  }

  function SkillFromGeneric(v: Value): Option<Skill> {
    if v.Obj? && |v.m| == 3 && SKILL_MEMBERS <= v.m.Keys
       && v.m["id"].Str? && v.m["name"].Str? && v.m["description"].Str?
    then Some(Skill(v.m["id"].s, v.m["name"].s, v.m["description"].s))
    else None
  }

  function SkillsFromGeneric(a: seq<Value>): Option<seq<Skill>> {
    if a == [] then Some([])
    else match (SkillFromGeneric(a[0]), SkillsFromGeneric(a[1..]))
      case (Some(s), Some(rest)) => Some([s] + rest)
      case _ => None
  }

  /** cardFromGeneric: exact member names, exact member counts, exact types. */
  function CardFromGeneric(m: map<string, Value>): Option<Card> {
    if |m| == 6 && CARD_MEMBERS <= m.Keys && m["version"] == Num("1")
       && m["name"].Str? && m["public_key"].Str? && m["harness"].Str? && m["created"].Str?
       && m["skills"].Arr? && |m["skills"].a| <= MAX_SKILLS
    then
      match SkillsFromGeneric(m["skills"].a)
      case None => None
      case Some(skills) => Some(Card(m["name"].s, m["public_key"].s, m["harness"].s, skills, m["created"].s))
    else None
  }

  /** A map with as many entries as a set of keys it contains has no other key. */
  lemma OnlyKeys(m: map<string, Value>, names: set<string>)
    requires names <= m.Keys && |m| == |names|
    ensures m.Keys == names
  {
    assert |m.Keys| == |m.Keys - names| + |names|;
  }

  lemma SkillExact(v: Value)
    requires SkillFromGeneric(v).Some?
    ensures v == SkillValue(SkillFromGeneric(v).value)
  {
    assert |SKILL_MEMBERS| == 3 by { assert "id" != "name" && "id" != "description" && "name" != "description"; }
    OnlyKeys(v.m, SKILL_MEMBERS);
    assert v.m == SkillValue(SkillFromGeneric(v).value).m;
  }

  lemma {:induction false} SkillsExact(a: seq<Value>)
    requires SkillsFromGeneric(a).Some?
    ensures var s := SkillsFromGeneric(a).value; |s| == |a| && forall i | 0 <= i < |a| :: a[i] == SkillValue(s[i])
  {
    hide SkillFromGeneric, SkillValue;
    if a != [] {
      SkillExact(a[0]);
      SkillsExact(a[1..]);
    }
  }

  lemma SixNames()
    ensures |CARD_MEMBERS| == 6
  {
    var a, b, c, d, e, f := "version", "name", "public_key", "harness", "skills", "created";
    assert |a| == 7 && |b| == 4 && |c| == 10 && |d| == 7 && |e| == 6 && |f| == 7;
    assert a[0] == 'v' && d[0] == 'h' && f[0] == 'c';
  }

  /** Nothing the signature covers is lost in the card read from it. */
  lemma CardExact(m: map<string, Value>)
    requires CardFromGeneric(m).Some?
    ensures m == CardMap(CardFromGeneric(m).value)
  {
    hide SkillValue, SkillsFromGeneric;
    SixNames();
    OnlyKeys(m, CARD_MEMBERS);
    SkillsExact(m["skills"].a);
    var c := CardFromGeneric(m).value;
    assert m["skills"].a == CardMap(c)["skills"].a;
    assert m.Keys == CardMap(c).Keys;
  }

  // ---- Verification ----

  function StringOr(m: map<string, Value>, k: string): string {
    if k in m && m[k].Str? then m[k].s else ""
  }

  /** The checks on the card object and the signature text. */
  ghost function VerifyParts(ed: Ed25519, card: Value, sigText: string, legacy: bool): Option<Signed>
    requires card.Obj?
  {
    match (Base64Url.DecodeStrict(StringOr(card.m, "public_key"), 32), Base64Url.DecodeStrict(sigText, 64))
    case (Some(pub), Some(sig)) =>
      (match (CanonicalBytes(card), CardFromGeneric(card.m))
       case (Some(canon), Some(c)) =>
         if ed(pub, Utf8.Encode(DOMAIN) + canon, sig) && Validate(c, legacy) then Some(Signed(c, sigText)) else None
       case _ => None)
    case _ => None
  }

  /** The checks after the envelope has been parsed. */
  ghost function VerifyDocument(ed: Ed25519, doc: Value, legacy: bool): Option<Signed> {
    if !Accepted(doc) || !doc.Obj? || "card" !in doc.m || !doc.m["card"].Obj?
       || "signature" !in doc.m || !doc.m["signature"].Str? then None
    else VerifyParts(ed, doc.m["card"], doc.m["signature"].s, legacy)
  }

  ghost function Verify(ed: Ed25519, data: bytes, legacy: bool): Option<Signed> {
    if |data| > MAX_CARD_BYTES then None
    else match ParseStrict(data)
      case None => None
      case Some(doc) => VerifyDocument(ed, doc, legacy)
  }

  /** Only the card and its signature. */
  function Pair(doc: Value): Value
    requires doc.Obj? && "card" in doc.m && "signature" in doc.m
  {
    Obj(map["card" := doc.m["card"], "signature" := doc.m["signature"]])
  }

  /** storedPair: the canonical form of exactly the card and its signature. */
  ghost function StoredPair(doc: Value): Option<bytes> {
    if doc.Obj? && "card" in doc.m && "signature" in doc.m
    then CanonicalBytes(Pair(doc))
    else None
  }

  ghost function StoredForm(data: bytes): Option<bytes> {
    match ParseStrict(data)
    case None => None
    case Some(doc) => StoredPair(doc)
  }

  /** What verifies is exactly what was signed: the signature covers the canonical form of the returned card. */
  lemma VerifiedIsSigned(ed: Ed25519, data: bytes, legacy: bool)
    requires Verify(ed, data, legacy).Some?
    ensures var s := Verify(ed, data, legacy).value;
      && Base64Url.DecodeStrict(s.card.publicKey, 32).Some?
      && Base64Url.DecodeStrict(s.signature, 64).Some?
      && Accepted(Obj(CardMap(s.card)))
      && ed(Base64Url.DecodeStrict(s.card.publicKey, 32).value,
            Utf8.Encode(DOMAIN) + Utf8.Encode(Text(Obj(CardMap(s.card)))),
            Base64Url.DecodeStrict(s.signature, 64).value)
  {
    hide CardMap, Text, ParseStrict, Base64Url.DecodeStrict, Validate;
    var doc := ParseStrict(data).value;
    CardExact(doc.m["card"].m);
  }

  // ---- The stored form ----

  lemma {:induction false} SubmapSmaller(sub: map<string, Value>, m: map<string, Value>)
    requires sub.Keys <= m.Keys && forall k | k in sub :: sub[k] == m[k]
    ensures CanonicalSize.MapSize(sub) <= CanonicalSize.MapSize(m)
    decreases m.Keys - sub.Keys
  {
    hide CanonicalSize.MapSize, CanonicalSize.MemberSize;
    if k :| k in m && k !in sub {
      var wider := sub[k := m[k]];
      CanonicalSize.MapSizeAdd(sub, k, m[k]);
      assert m.Keys - wider.Keys < m.Keys - sub.Keys by { assert k in m.Keys - sub.Keys; }
      SubmapSmaller(wider, m);
    } else {
      assert sub == m;
    }
  }

  /** Dropping the other members of an envelope does not lengthen its canonical form. */
  lemma PairNoLonger(doc: Value, pair: Value)
    requires doc.Obj? && pair.Obj? && pair.m != map[] && pair.m.Keys <= doc.m.Keys
    requires forall k | k in pair.m :: pair.m[k] == doc.m[k]
    ensures |Utf8.Encode(Text(pair))| <= |Utf8.Encode(Text(doc))|
  {
    hide Text, CanonicalSize.MapSize, CanonicalSize.Size;
    SubmapSmaller(pair.m, doc.m);
    CanonicalSize.ObjectTextSize(pair.m);
    CanonicalSize.ObjectTextSize(doc.m);
    assert doc.m != map[] by { var k :| k in pair.m; assert k in doc.m; }
    CanonicalSize.SizeIsEncoded(Text(pair));
    CanonicalSize.SizeIsEncoded(Text(doc));
  }

  lemma PairSame(doc: Value)
    requires doc.Obj? && "card" in doc.m && "signature" in doc.m
    ensures Pair(doc).m["card"] == doc.m["card"] && Pair(doc).m["signature"] == doc.m["signature"]
    ensures Pair(Pair(doc)) == Pair(doc)
    ensures Accepted(doc) ==> Accepted(Pair(doc))
    ensures StoredPair(Pair(doc)) == StoredPair(doc)
  {
    hide Text;
    assert |"card"| != |"signature"|;
  }

  lemma VerifyPair(ed: Ed25519, doc: Value, legacy: bool)
    requires doc.Obj? && "card" in doc.m && "signature" in doc.m && Accepted(doc)
    ensures VerifyDocument(ed, Pair(doc), legacy) == VerifyDocument(ed, doc, legacy)
  {
    hide Pair, Accepted, VerifyParts, StoredPair;
    PairSame(doc);
    PairIsObject(doc);
    assert "card" in Pair(doc).m && "signature" in Pair(doc).m;
  }

  lemma PairIsObject(doc: Value)
    requires doc.Obj? && "card" in doc.m && "signature" in doc.m
    ensures Pair(doc).Obj? && Pair(doc).m.Keys == {"card", "signature"}
  {
  }

  /** The stored form of a verified card fits the size limit, verifies to the same card, and is its own stored form. */
  lemma StoredFormFaithful(ed: Ed25519, data: bytes, legacy: bool)
    requires Verify(ed, data, legacy).Some?
    ensures StoredForm(data).Some?
    ensures var f := StoredForm(data).value;
      && |f| <= |data| <= MAX_CARD_BYTES
      && Verify(ed, f, legacy) == Verify(ed, data, legacy)
      && StoredForm(f) == Some(f)
  {
    hide Text, ParseStrict, VerifyDocument, Pair, Accepted;
    var doc := ParseStrict(data).value;
    VerifiedParts(ed, doc, legacy);
    PairSame(doc);
    VerifyPair(ed, doc, legacy);
    NeverLonger(data);
    PairIsObject(doc);
    assert "card" in Pair(doc).m;
    PairNoLonger(doc, Pair(doc));
    StrictRoundTrip(Pair(doc));
  }

  lemma VerifiedParts(ed: Ed25519, doc: Value, legacy: bool)
    requires VerifyDocument(ed, doc, legacy).Some?
    ensures Accepted(doc) && doc.Obj? && "card" in doc.m && "signature" in doc.m
  {
    hide Accepted, VerifyParts;
  }

  /** rescue: a card read without the surrogate rule is only kept in a form that passes every current rule. */
  ghost function RescueStored(ed: Ed25519, raw: bytes, wantKey: string): Option<(bytes, Signed)> {
    if !Utf8.Valid(raw) then None
    else match ParseDocument(Utf8.Runes(raw))
      case None => None
      case Some(doc) =>
        match StoredPair(doc)
        case None => None
        case Some(canon) =>
          match Verify(ed, canon, true)
          case None => None
          case Some(s) => if s.card.publicKey == wantKey then Some((canon, s)) else None
  }

  lemma RescuedIsStored(ed: Ed25519, raw: bytes, wantKey: string)
    requires RescueStored(ed, raw, wantKey).Some?
    ensures var (canon, s) := RescueStored(ed, raw, wantKey).value;
      && StoredForm(canon) == Some(canon)
      && Verify(ed, canon, true) == Some(s)
      && s.card.publicKey == wantKey
  {
    hide Text, ParseStrict, Verify, ParseDocument;
    var doc := ParseDocument(Utf8.Runes(raw)).value;
    PairSame(doc);
    StrictRoundTrip(Pair(doc));
  }
}
