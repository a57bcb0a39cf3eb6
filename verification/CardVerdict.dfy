/**
 Which agent cards are accepted: exactly those whose signature covers the card
 and whose texts, key and time follow the rules, whatever else the envelope has.
 */
module CardVerdict {
  import opened Base
  import opened Json
  import opened Canonical
  import opened Documents
  import opened AgentCard
  import Base64Url
  import Instant
  import Utf8

  // ---- The rules of agent-card.md, spelled out ----

  /** The one spelling of a time in a year of four digits. */
  ghost predicate TimeText(s: string) {
    exists t: Instant.Time :: Instant.Valid(t) && 0 <= t.year <= 9999 && s == Instant.Format(t)
  }

  const INVISIBLE: set<int> := {
    0x061C, 0x200E, 0x200F, 0x2028, 0x2029, 0x202A, 0x202B, 0x202C, 0x202D, 0x202E, 0x2066, 0x2067, 0x2068, 0x2069}

  /** At most 128 characters, none a control or U+FFFD, and in new cards none that hides or reorders text. */
  predicate Shown(s: string, legacy: bool) {
    |s| <= 128 && forall c | c in s ::
      && !(0 <= c as int <= 0x1F) && !(0x7F <= c as int <= 0x9F) && c as int != 0xFFFD
      && (c as int in INVISIBLE ==> legacy)
  }

  lemma ShownIs(s: string, legacy: bool)
    ensures TextOk(s, false, legacy) <==> Shown(s, legacy)
    ensures TextOk(s, true, legacy) <==> Shown(s, legacy) && s != ""
  {
    forall c: char ensures BidiOrSeparator(c) <==> c as int in INVISIBLE { }
    if TextOk(s, false, legacy) {
      forall c | c in s
        ensures && !(0 <= c as int <= 0x1F) && !(0x7F <= c as int <= 0x9F) && c as int != 0xFFFD
                && (c as int in INVISIBLE ==> legacy)
      {
        var i :| 0 <= i < |s| && s[i] == c;
      }
    }
    if Shown(s, legacy) { assert forall i | 0 <= i < |s| :: s[i] in s; }
  }

  lemma TimeTextIs(s: string)
    ensures Instant.Parse(s).Some? <==> TimeText(s)
  {
    hide Instant.Parse, Instant.Format;
    if Instant.Parse(s).Some? {
      Instant.FormatOfParse(s);
    }
    if t: Instant.Time :| Instant.Valid(t) && 0 <= t.year <= 9999 && s == Instant.Format(t) {
      Instant.ParseExact(s, t);
    }
  }

  /** What the text and schema rules demand, and nothing more. */
  lemma ValidateExact(c: Card, legacy: bool)
    ensures Validate(c, legacy)
       <==> && Shown(c.name, legacy) && c.name != "" && Shown(c.harness, legacy) && c.harness != ""
            && Base64Url.IsEncoding(c.publicKey, 32) && TimeText(c.created) && |c.skills| <= 32
            && forall i | 0 <= i < |c.skills| ::
                 && Shown(c.skills[i].id, legacy) && c.skills[i].id != ""
                 && Shown(c.skills[i].name, legacy) && c.skills[i].name != ""
                 && Shown(c.skills[i].description, legacy)
  {
    ShownIs(c.name, legacy);
    ShownIs(c.harness, legacy);
    Base64Url.AcceptsExactlyEncodings(c.publicKey, 32);
    TimeTextIs(c.created);
    hide TextOk, Shown, Base64Url.DecodeStrict, Base64Url.IsEncoding, Instant.Parse, TimeText;
    forall i | 0 <= i < |c.skills|
      ensures SkillOk(c.skills[i], legacy)
         <==> && Shown(c.skills[i].id, legacy) && c.skills[i].id != ""
              && Shown(c.skills[i].name, legacy) && c.skills[i].name != ""
              && Shown(c.skills[i].description, legacy)
    {
      ShownIs(c.skills[i].id, legacy);
      ShownIs(c.skills[i].name, legacy);
      ShownIs(c.skills[i].description, legacy);
    }
  }

  // ---- Reading the card's own map ----

  lemma SkillRead(s: Skill)
    ensures SkillFromGeneric(SkillValue(s)) == Some(s)
  {
    assert |"id"| == 2 && |"name"| == 4 && |"description"| == 11;
  }

  lemma {:induction false} SkillsRead(skills: seq<Skill>, a: seq<Value>)
    requires |a| == |skills| && forall i | 0 <= i < |a| :: a[i] == SkillValue(skills[i])
    ensures SkillsFromGeneric(a) == Some(skills)
  {
    hide SkillFromGeneric, SkillValue;
    if a != [] {
      SkillRead(skills[0]);
      SkillsRead(skills[1..], a[1..]);
      assert skills == [skills[0]] + skills[1..];
    }
  }

  lemma CardMapParts(c: Card)
    ensures var m := CardMap(c);
      && m.Keys == CARD_MEMBERS && |m| == 6 && m["version"] == Num("1") && m["name"] == Str(c.name)
      && m["public_key"] == Str(c.publicKey) && m["harness"] == Str(c.harness) && m["created"] == Str(c.created)
      && m["skills"].Arr? && |m["skills"].a| == |c.skills|
      && forall i | 0 <= i < |c.skills| :: m["skills"].a[i] == SkillValue(c.skills[i])
  {
    hide SkillValue;
    SixNames();
    var a, b, p, d, e, f := "version", "name", "public_key", "harness", "skills", "created";
    assert |a| == 7 && |b| == 4 && |p| == 10 && |d| == 7 && |e| == 6 && |f| == 7;
    assert a[0] == 'v' && d[0] == 'h' && f[0] == 'c';
    assert CardMap(c).Keys == CARD_MEMBERS;
  }

  /** The map of a card is read as that card. */
  lemma CardRead(c: Card)
    requires |c.skills| <= 32
    ensures CardFromGeneric(CardMap(c)) == Some(c)
  {
    CardMapParts(c);
    hide CardMap, SkillValue;
    SkillsRead(c.skills, CardMap(c)["skills"].a);
  }

  // ---- Verification ----

  /** The bytes are an envelope that holds the map of this card and this signature text. */
  predicate Holds(doc: Value, s: Signed) {
    && doc.Obj? && "card" in doc.m && doc.m["card"] == Obj(CardMap(s.card))
    && "signature" in doc.m && doc.m["signature"] == Str(s.signature)
  }

  ghost predicate SignedBy(ed: Ed25519, s: Signed) {
    && Base64Url.DecodeStrict(s.card.publicKey, 32).Some? && Base64Url.DecodeStrict(s.signature, 64).Some?
    && ed(Base64Url.DecodeStrict(s.card.publicKey, 32).value,
          Utf8.Encode("dorylinae-agent-card-v1\n") + Utf8.Encode(Text(Obj(CardMap(s.card)))),
          Base64Url.DecodeStrict(s.signature, 64).value)
  }

  /**
   For every byte string: Verify returns a card if and only if the bytes are a small enough strict
   document with canonical numbers that holds that card, the rules accept it, and the signature
   is the key's over the card's canonical form.
   */
  lemma VerifiedExactly(ed: Ed25519, data: bytes, legacy: bool, s: Signed)
    ensures Verify(ed, data, legacy) == Some(s)
       <==> && |data| <= 16384 && ParseStrict(data).Some? && Accepted(ParseStrict(data).value)
            && Holds(ParseStrict(data).value, s) && Validate(s.card, legacy) && SignedBy(ed, s)
  {
    hide ParseStrict, Text, Validate, Base64Url.DecodeStrict, CardMap, CardFromGeneric, Accepted;
    if |data| <= 16384 && ParseStrict(data).Some? {
      var doc := ParseStrict(data).value;
      if Verify(ed, data, legacy) == Some(s) {
        VerifiedHolds(ed, doc, legacy, s);
        VerifiedIsSigned(ed, data, legacy);
      }
      if Accepted(doc) && Holds(doc, s) && Validate(s.card, legacy) && SignedBy(ed, s) {
        HoldsVerifies(ed, doc, legacy, s);
      }
    }
  }

  lemma VerifiedHolds(ed: Ed25519, doc: Value, legacy: bool, s: Signed)
    requires VerifyDocument(ed, doc, legacy) == Some(s)
    ensures Accepted(doc) && Holds(doc, s) && Validate(s.card, legacy)
  {
    hide Text, Validate, Base64Url.DecodeStrict, CardMap, CardFromGeneric, Accepted, VerifyParts;
    PartsHold(ed, doc.m["card"], doc.m["signature"].s, legacy);
  }

  lemma PartsHold(ed: Ed25519, card: Value, sigText: string, legacy: bool)
    requires card.Obj? && VerifyParts(ed, card, sigText, legacy).Some?
    ensures var s := VerifyParts(ed, card, sigText, legacy).value;
            card.m == CardMap(s.card) && s.signature == sigText && Validate(s.card, legacy)
  {
    hide Text, Validate, Base64Url.DecodeStrict, CardMap, CardFromGeneric, Accepted, StringOr;
    CardExact(card.m);
  }

  lemma FewSkills(c: Card, legacy: bool)
    requires Validate(c, legacy)
    ensures |c.skills| <= 32
  {
    hide TextOk, SkillOk, Base64Url.DecodeStrict, Instant.Parse;
  }

  lemma KeyMember(c: Card)
    ensures StringOr(CardMap(c), "public_key") == c.publicKey
  {
    hide CardMap, SkillValue;
    CardMapParts(c);
  }

  lemma SignedParts(ed: Ed25519, legacy: bool, s: Signed)
    requires Accepted(Obj(CardMap(s.card))) && Validate(s.card, legacy) && SignedBy(ed, s)
    ensures VerifyParts(ed, Obj(CardMap(s.card)), s.signature, legacy) == Some(s)
  {
    hide Text, Validate, Base64Url.DecodeStrict, CardMap, CardFromGeneric, Accepted, StringOr;
    FewSkills(s.card, legacy);
    CardRead(s.card);
    KeyMember(s.card);
  }

  lemma HoldsVerifies(ed: Ed25519, doc: Value, legacy: bool, s: Signed)
    requires Accepted(doc) && Holds(doc, s) && Validate(s.card, legacy) && SignedBy(ed, s)
    ensures VerifyDocument(ed, doc, legacy) == Some(s)
  {
    hide Validate, CardMap, Accepted, VerifyParts, SignedBy;
    MemberAccepted(doc, "card");
    SignedParts(ed, legacy, s);
  }

  lemma MemberAccepted(doc: Value, k: string)
    requires doc.Obj? && Accepted(doc) && k in doc.m
    ensures Accepted(doc.m[k])
  {
  }

  /** Every card that verifies as stored is rescued, in its stored form. */
  lemma VerifiedIsRescued(ed: Ed25519, data: bytes, s: Signed)
    requires Verify(ed, data, true) == Some(s)
    ensures StoredForm(data).Some?
    ensures RescueStored(ed, data, s.card.publicKey) == Some((StoredForm(data).value, s))
  {
    hide Verify, ParseDocument, Text, StoredPair;
    StoredFormFaithful(ed, data, true);
  }
}
