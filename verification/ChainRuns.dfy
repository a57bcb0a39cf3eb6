/**
 Whole runs of the appender. Every log it builds from legacy rows verifies,
 for every anchor taken from one of its stored rows, exactly when the texts
 put into it are valid: the appender itself never checks that an actor or an
 action is valid UTF-8, and the verifier does.
 */
module ChainRuns {
  import opened Base
  import opened Chain
  import opened ChainLog
  import opened ChainAnchors
  import Hex
  import Utf8

  /** What the libraries promise the chain. */
  ghost predicate Promises(lib: Lib) {
    && Digests(lib)
    && (forall d: Legacy :: lib.startDetail(lib.marshalStart(d)) == Some(d)
          && lib.jsonValid(lib.marshalStart(d)) && Utf8.Valid(lib.marshalStart(d)))
  }

  predicate ClockText(lib: Lib, ts: bytes) { lib.timeValid(ts) && Utf8.Valid(ts) }

  /** What the caller of an append cannot get wrong: the clock's text and the marshalled detail. */
  predicate Marshalled(lib: Lib, e: Event) {
    ClockText(lib, e.startTs) && ClockText(lib, e.ts) && lib.jsonValid(e.detail) && Utf8.Valid(e.detail)
  }

  ghost predicate LegacyRows(rows: seq<Row>) { Increasing(rows) && forall i | 0 <= i < |rows| :: rows[i].hash.None? }

  /** A sequence of successful appends to legacy rows. */
  ghost function Build(lib: Lib, legacy: seq<Row>, events: seq<Event>): Option<seq<Row>> {
    if events == [] then Some(legacy)
    else match Build(lib, legacy, events[..|events| - 1])
      case None => None
      case Some(rows) => AppendSpec(lib, rows, events[|events| - 1])
  }

  ghost predicate StoredAt(lib: Lib, rows: seq<Row>, i: nat)
    requires i < |rows|
  {
    Canonicalizable(rows[i]) && rows[i].hash == Some(Hex.Encode(Link(lib, rows[..i + 1])))
  }

  /** The shape of a started chain: l legacy rows, the sealing row, then consecutive stored rows. */
  ghost predicate Built(lib: Lib, rows: seq<Row>, l: nat) {
    && l < |rows| && Increasing(rows)
    && (forall i | 0 <= i < l :: rows[i].hash.None? && Canonicalizable(rows[i]))
    && (forall i | l <= i < |rows| :: StoredAt(lib, rows, i))
    && (forall i | l < i < |rows| :: rows[i].id == rows[i - 1].id + 1)
    && Seals(lib, rows[l], rows[..l])
  }

  ghost predicate Seals(lib: Lib, r: Row, legacy: seq<Row>) {
    && r.action == Ascii(ACTION_CHAIN_START) && r.actor == Ascii(ACTOR_DAEMON)
    && r.detail == lib.marshalStart(Legacy(LastId(legacy), |legacy|))
  }

  lemma LinkDecodes(lib: Lib, rows: seq<Row>)
    requires Digests(lib)
    ensures Hex.DecodeHash(Hex.Encode(Link(lib, rows))) == Some(Link(lib, rows))
  {
    hide Link;
    LinkDigest(lib, rows);
    Hex.DecodeOfEncode(Link(lib, rows));
  }

  lemma StoredPrefix(lib: Lib, rows: seq<Row>, r: Row, i: nat)
    requires i < |rows|
    ensures StoredAt(lib, rows + [r], i) <==> StoredAt(lib, rows, i)
  {
    hide Link;
    assert (rows + [r])[..i + 1] == rows[..i + 1];
  }

  lemma IncreasingSnoc(rows: seq<Row>, r: Row)
    requires Increasing(rows) && (rows != [] ==> r.id == rows[|rows| - 1].id + 1)
    ensures Increasing(rows + [r])
  {
    var t := rows + [r];
    forall i, j | 0 <= i < j < |t| ensures t[i].id < t[j].id {
      if j == |rows| && i < |rows| - 1 { assert rows[i].id < rows[|rows| - 1].id; }
    }
  }

  /** The row an insertion adds, hashed onto the chain of the rows before it. */
  lemma InsertStored(lib: Lib, rows: seq<Row>, r: Row)
    requires r.hash.None? && InsertSpec(lib, rows, Link(lib, rows), r).Some?
    ensures var t := InsertSpec(lib, rows, Link(lib, rows), r).value;
      && |t| == |rows| + 1 && t[..|rows|] == rows && ContentOf(t[|rows|]) == ContentOf(r)
      && t == rows + [t[|rows|]] && StoredAt(lib, t, |rows|)
  {
    hide Link, Hex.Encode, HashInput;
    var h := lib.sha256(HashInput(Link(lib, rows), r));
    var x := r.(hash := Some(Hex.Encode(h)));
    var t := rows + [x];
    assert InsertSpec(lib, rows, Link(lib, rows), r) == Some(t);
    SameInput(Link(lib, rows), r, x);
    LinkSnoc(lib, rows, x);
    assert t[..|rows| + 1] == t;
  }

  /** The hash input does not include the hash. */
  lemma SameInput(prev: bytes, r: Row, s: Row)
    requires ContentOf(r) == ContentOf(s)
    ensures HashInput(prev, r) == HashInput(prev, s)
  {
    hide Utf8.Runes;
    assert RowValue(r) == RowValue(s);
  }

  lemma AppendToChain(lib: Lib, rows: seq<Row>, l: nat, e: Event)
    requires Digests(lib) && Built(lib, rows, l) && AppendSpec(lib, rows, e).Some?
    ensures var t := AppendSpec(lib, rows, e).value;
      && Built(lib, t, l) && |t| == |rows| + 1 && t[..|rows|] == rows
      && ContentOf(t[|rows|]) == Content(LastId(rows) + 1, e.ts, e.actor, e.action, e.detail)
  {
    hide Link, Hex.Encode, HashInput, InsertSpec, Hex.DecodeHash, StartSpec, Seals, ContentOf;
    var last := |rows| - 1;
    assert StoredAt(lib, rows, last) && rows[..last + 1] == rows;
    LinkDecodes(lib, rows);
    var r := Row(LastId(rows) + 1, e.ts, e.actor, e.action, e.detail, None);
    assert ContentOf(r) == Content(LastId(rows) + 1, e.ts, e.actor, e.action, e.detail) by { ContentFields(r); }
    InsertStored(lib, rows, r);
    var t := AppendSpec(lib, rows, e).value;
    BuiltSnoc(lib, rows, l, t[|rows|], r);
  }

  lemma ContentFields(r: Row)
    ensures ContentOf(r) == Content(r.id, r.ts, r.actor, r.action, r.detail)
  {
  }

  lemma BuiltSnoc(lib: Lib, rows: seq<Row>, l: nat, x: Row, r: Row)
    requires Built(lib, rows, l) && ContentOf(x) == ContentOf(r) && r.id == LastId(rows) + 1
    requires StoredAt(lib, rows + [x], |rows|)
    ensures Built(lib, rows + [x], l)
  {
    hide StoredAt, Seals;
    var t := rows + [x];
    IncreasingSnoc(rows, x);
    forall i | l <= i < |t| ensures StoredAt(lib, t, i) {
      if i < |rows| { StoredPrefix(lib, rows, x, i); }
    }
    assert t[..l] == rows[..l];
  }

  lemma BuiltStart(lib: Lib, rows: seq<Row>, x: Row)
    requires LegacyRows(rows) && AllHashable(rows) && x.id == LastId(rows) + 1 && Seals(lib, x, rows)
    requires StoredAt(lib, rows + [x], |rows|)
    ensures Built(lib, rows + [x], |rows|)
  {
    hide StoredAt, Seals;
    IncreasingSnoc(rows, x);
    assert (rows + [x])[..|rows|] == rows;
  }

  lemma StartRowSeals(lib: Lib, rows: seq<Row>, ts: bytes, x: Row)
    requires ContentOf(x) == ContentOf(StartRow(lib, rows, ts))
    ensures Seals(lib, x, rows) && x.id == LastId(rows) + 1 && x.ts == ts
  {
  }

  lemma StartChainBuilds(lib: Lib, rows: seq<Row>, ts: bytes)
    requires Digests(lib) && LegacyRows(rows) && StartSpec(lib, rows, ts).Some?
    ensures var t := StartSpec(lib, rows, ts).value;
      && Built(lib, t, |rows|) && |t| == |rows| + 1 && t[..|rows|] == rows
      && t[|rows|].id == LastId(rows) + 1 && t[|rows|].ts == ts && t[|rows|].hash.Some?
  {
    hide Link, InsertSpec, StartRow, Built, Seals, ContentOf, LegacyRows, AnyStored, AllHashable, StoredAt;
    assert StartRow(lib, rows, ts).hash.None? by { StartRowBare(lib, rows, ts); }
    InsertStored(lib, rows, StartRow(lib, rows, ts));
    var t := StartSpec(lib, rows, ts).value;
    StartRowSeals(lib, rows, ts, t[|rows|]);
    BuiltStart(lib, rows, t[|rows|]);
    assert t[|rows|].hash.Some? by { StoredHasHash(lib, t, |rows|); }
  }

  lemma StartRowBare(lib: Lib, rows: seq<Row>, ts: bytes)
    ensures StartRow(lib, rows, ts).hash.None?
  {
  }

  lemma StoredHasHash(lib: Lib, rows: seq<Row>, i: nat)
    requires i < |rows| && StoredAt(lib, rows, i)
    ensures rows[i].hash.Some?
  {
  }

  lemma FirstAppend(lib: Lib, rows: seq<Row>, e: Event)
    requires Digests(lib) && LegacyRows(rows) && AppendSpec(lib, rows, e).Some?
    ensures StartSpec(lib, rows, e.startTs).Some?
    ensures var s := StartSpec(lib, rows, e.startTs).value;
      Built(lib, s, |rows|) && AppendSpec(lib, rows, e) == AppendSpec(lib, s, e)
  {
    hide Link, InsertSpec, Hex.DecodeHash, StartSpec, Built, Increasing;
    assert StartSpec(lib, rows, e.startTs).Some?;
    StartChainBuilds(lib, rows, e.startTs);
  }

  /** Row j after the seal carries event j. */
  ghost predicate Carries(rows: seq<Row>, legacy: seq<Row>, events: seq<Event>) {
    && |rows| == |legacy| + 1 + |events| && rows[..|legacy|] == legacy
    && events != [] && rows[|legacy|].ts == events[0].startTs && rows[|legacy|].id == LastId(legacy) + 1
    && forall j | 0 <= j < |events| ::
         var r := rows[|legacy| + 1 + j];
         && r.ts == events[j].ts && r.actor == events[j].actor
         && r.action == events[j].action && r.detail == events[j].detail
  }

  lemma CarriesSnoc(rows: seq<Row>, legacy: seq<Row>, events: seq<Event>, t: seq<Row>, e: Event)
    requires |t| == |rows| + 1 && t[..|rows|] == rows
    requires t[|rows|].ts == e.ts && t[|rows|].actor == e.actor
    requires t[|rows|].action == e.action && t[|rows|].detail == e.detail
    requires if events == [] then |rows| == |legacy| + 1 && rows[..|legacy|] == legacy
                                  && rows[|legacy|].ts == e.startTs && rows[|legacy|].id == LastId(legacy) + 1
             else Carries(rows, legacy, events)
    ensures Carries(t, legacy, events + [e])
  {
    assert forall j | 0 <= j < |rows| :: t[j] == rows[j];
    assert t[..|legacy|] == rows[..|legacy|];
  }

  lemma {:induction false} BuildShape(lib: Lib, legacy: seq<Row>, events: seq<Event>)
    requires Digests(lib) && LegacyRows(legacy) && events != [] && Build(lib, legacy, events).Some?
    ensures var rows := Build(lib, legacy, events).value; Built(lib, rows, |legacy|) && Carries(rows, legacy, events)
  {
    hide AppendSpec, StartSpec, Built, Carries;
    var init, e := events[..|events| - 1], events[|events| - 1];
    assert events == init + [e];
    var before := Build(lib, legacy, init).value;
    var rows := AppendSpec(lib, before, e).value;
    if init == [] {
      FirstAppend(lib, legacy, e);
      var s := StartSpec(lib, legacy, e.startTs).value;
      StartChainBuilds(lib, legacy, e.startTs);
      AppendToChain(lib, s, |legacy|, e);
      CarriesSnoc(s, legacy, [], rows, e);
    } else {
      BuildShape(lib, legacy, init);
      AppendToChain(lib, before, |legacy|, e);
      CarriesSnoc(before, legacy, init, rows, e);
    }
  }

  // ---- Walking what was built ----

  /** Anchors recorded from stored rows of this log. */
  ghost predicate FromHeads(anchors: seq<Anchor>, rows: seq<Row>, l: nat) {
    forall a | 0 <= a < |anchors| ::
      && anchors[a].id > 0
      && exists i | l <= i < |rows| :: rows[i].id == anchors[a].id && rows[i].hash == Some(anchors[a].hash)
  }

  lemma HeadAnchorsHold(anchors: seq<Anchor>, rows: seq<Row>, l: nat, i: nat)
    requires FromHeads(anchors, rows, l) && Increasing(rows) && i < |rows|
    ensures i < l ==> !Anchored(anchors, rows[i].id)
    ensures i >= l && rows[i].hash.Some? ==> AnchorsHold(anchors, rows[i].id, rows[i].hash.value)
  {
    forall a | 0 <= a < |anchors| && anchors[a].id == rows[i].id
      ensures i >= l && rows[i].hash == Some(anchors[a].hash)
    {
      var j :| l <= j < |rows| && rows[j].id == anchors[a].id && rows[j].hash == Some(anchors[a].hash);
      SameId(rows, i, j);
    }
  }

  lemma SameId(rows: seq<Row>, i: nat, j: nat)
    requires Increasing(rows) && i < |rows| && j < |rows| && rows[i].id == rows[j].id
    ensures i == j
  {
  }

  /** The walk's state after i rows of a built log. */
  ghost predicate Midway(lib: Lib, anchors: seq<Anchor>, rows: seq<Row>, l: nat, i: nat, st: Walk)
    requires l < |rows| && i <= |rows|
  {
    && st.status.Intact? && st.prev == Link(lib, rows[..i]) && st.lastId == LastId(rows[..i])
    && st.started == (i > l) && st.rows == i && st.legacyRows == (if i <= l then i else l)
    && (i > l ==> st.chainedFrom == rows[l].id) && st.legacyAnchor == 0
    && forall j | 0 <= j < i && Anchored(anchors, rows[j].id) :: rows[j].id in st.seen
  }

  lemma LinkNext(lib: Lib, rows: seq<Row>, i: nat)
    requires i < |rows|
    ensures Link(lib, rows[..i + 1]) == lib.sha256(HashInput(Link(lib, rows[..i]), rows[i]))
    ensures LastId(rows[..i + 1]) == rows[i].id
  {
    hide Link, HashInput;
    assert rows[..i + 1] == rows[..i] + [rows[i]];
    LinkSnoc(lib, rows[..i], rows[i]);
  }

  lemma CheckLegacyBuilt(lib: Lib, anchors: seq<Anchor>, rows: seq<Row>, l: nat, i: nat, st: Walk)
    requires Promises(lib) && Built(lib, rows, l) && FromHeads(anchors, rows, l)
    requires i < l && Midway(lib, anchors, rows, l, i, st)
    ensures var next := CheckRow(lib, anchors, st, rows[i]);
      if WellFormed(lib, rows[i]) then Midway(lib, anchors, rows, l, i + 1, next)
      else next.status == Broken(rows[i].id, BadRow)
  {
    hide Link, HashInput, WellFormed, FromHeads, StoredAt, Seals, AnchorsHold, Anchored;
    HeadAnchorsHold(anchors, rows, l, i);
    LinkNext(lib, rows, i);
  }

  lemma CheckStoredBuilt(lib: Lib, anchors: seq<Anchor>, rows: seq<Row>, l: nat, i: nat, st: Walk)
    requires Promises(lib) && Built(lib, rows, l) && FromHeads(anchors, rows, l)
    requires l <= i < |rows| && Midway(lib, anchors, rows, l, i, st)
    ensures var next := CheckRow(lib, anchors, st, rows[i]);
      if WellFormed(lib, rows[i]) then Midway(lib, anchors, rows, l, i + 1, next)
      else next.status == Broken(rows[i].id, BadRow)
  {
    hide Link, HashInput, WellFormed, FromHeads, AnchorsHold, Anchored, Ascii, Hex.Encode;
    HeadAnchorsHold(anchors, rows, l, i);
    LinkNext(lib, rows, i);
    assert StoredAt(lib, rows, i);
    if i > l {
      assert rows[..i][i - 1] == rows[i - 1];
    }
  }

  lemma {:induction false} WalkBuilt(lib: Lib, anchors: seq<Anchor>, rows: seq<Row>, l: nat, i: nat)
    requires Promises(lib) && Built(lib, rows, l) && FromHeads(anchors, rows, l) && i <= |rows|
    requires forall j | 0 <= j < i :: WellFormed(lib, rows[j])
    ensures Midway(lib, anchors, rows, l, i, WalkRows(lib, anchors, rows[..i]))
  {
    hide WalkRows, CheckRow, Built, FromHeads, WellFormed, Midway, Promises, Link, Start, LastId;
    BuiltLength(lib, rows, l);
    if i == 0 {
      assert rows[..0] == [];
      WalkNothing(lib, anchors);
      MidwayStart(lib, anchors, rows, l);
    } else {
      WalkBuilt(lib, anchors, rows, l, i - 1);
      WalkStep(lib, anchors, rows, l, i - 1);
    }
  }

  lemma MidwayStart(lib: Lib, anchors: seq<Anchor>, rows: seq<Row>, l: nat)
    requires l < |rows|
    ensures Midway(lib, anchors, rows, l, 0, Start(lib))
  {
    hide Anchored;
    assert rows[..0] == [];
  }

  lemma WalkStep(lib: Lib, anchors: seq<Anchor>, rows: seq<Row>, l: nat, i: nat)
    requires Promises(lib) && Built(lib, rows, l) && FromHeads(anchors, rows, l) && i < |rows|
    requires Midway(lib, anchors, rows, l, i, WalkRows(lib, anchors, rows[..i]))
    ensures var next := WalkRows(lib, anchors, rows[..i + 1]);
      if WellFormed(lib, rows[i]) then Midway(lib, anchors, rows, l, i + 1, next)
      else next.status == Broken(rows[i].id, BadRow)
  {
    hide WalkRows, CheckRow, FromHeads, WellFormed, StoredAt, Seals, Link, Promises, Increasing;
    var st := WalkRows(lib, anchors, rows[..i]);
    assert rows[..i + 1] == rows[..i] + [rows[i]];
    WalkSnoc(lib, anchors, rows[..i], rows[i]);
    if i < l {
      CheckLegacyBuilt(lib, anchors, rows, l, i, st);
    } else {
      CheckStoredBuilt(lib, anchors, rows, l, i, st);
    }
  }

  lemma {:induction false} NothingMissing(anchors: seq<Anchor>, seen: set<int>)
    requires forall a | 0 <= a < |anchors| :: anchors[a].id in seen
    ensures LeastMissing(anchors, seen) == 0
  {
    if anchors != [] { NothingMissing(anchors[..|anchors| - 1], seen); }
  }

  lemma BuiltVerifies(lib: Lib, anchors: seq<Anchor>, rows: seq<Row>, l: nat)
    requires Promises(lib) && Built(lib, rows, l) && FromHeads(anchors, rows, l)
    requires forall j | 0 <= j < |rows| :: WellFormed(lib, rows[j])
    ensures Verdict(lib, anchors, rows) == Result(Intact, |rows|, l, rows[l].id, HeadOf(rows))
  {
    hide WalkRows, Built, WellFormed, LeastMissing, Link;
    WalkBuilt(lib, anchors, rows, l, |rows|);
    assert rows[..|rows|] == rows;
    var st := WalkRows(lib, anchors, rows);
    forall a | 0 <= a < |anchors| ensures anchors[a].id in st.seen {
      var i :| l <= i < |rows| && rows[i].id == anchors[a].id && rows[i].hash == Some(anchors[a].hash);
      assert Anchored(anchors, rows[i].id);
    }
    NothingMissing(anchors, st.seen);
    assert l < |rows| by { BuiltLength(lib, rows, l); }
  }

  lemma BuiltLength(lib: Lib, rows: seq<Row>, l: nat)
    requires Built(lib, rows, l)
    ensures l < |rows|
  {
  }

  lemma BuiltBreaks(lib: Lib, anchors: seq<Anchor>, rows: seq<Row>, l: nat, bad: nat)
    requires Promises(lib) && Built(lib, rows, l) && FromHeads(anchors, rows, l)
    requires bad < |rows| && !WellFormed(lib, rows[bad]) && forall j | 0 <= j < bad :: WellFormed(lib, rows[j])
    ensures Verdict(lib, anchors, rows).status == Broken(rows[bad].id, BadRow)
  {
    hide WalkRows, Built, FromHeads, WellFormed, Midway, Promises, Finish;
    WalkBuilt(lib, anchors, rows, l, bad);
    BuiltLength(lib, rows, l);
    WalkStep(lib, anchors, rows, l, bad);
    BrokenStays(lib, anchors, rows, bad + 1);
  }

  /** The first row that is not well formed, if any. */
  lemma FirstBad(lib: Lib, rows: seq<Row>) returns (bad: nat)
    ensures bad <= |rows| && (forall j | 0 <= j < bad :: WellFormed(lib, rows[j]))
    ensures bad < |rows| ==> !WellFormed(lib, rows[bad])
  {
    bad := 0;
    while bad < |rows| && WellFormed(lib, rows[bad])
      invariant 0 <= bad <= |rows| && forall j | 0 <= j < bad :: WellFormed(lib, rows[j])
    {
      bad := bad + 1;
    }
  }

  /** The texts the appender takes on trust. */
  ghost predicate TextsOk(lib: Lib, legacy: seq<Row>, events: seq<Event>) {
    && (forall i | 0 <= i < |legacy| :: WellFormed(lib, legacy[i]))
    && (forall j | 0 <= j < |events| :: Utf8.Valid(events[j].actor) && Utf8.Valid(events[j].action))
  }

  lemma SealWellFormed(lib: Lib, r: Row, legacy: seq<Row>)
    requires Promises(lib) && Seals(lib, r, legacy) && ClockText(lib, r.ts)
    ensures WellFormed(lib, r)
  {
    Utf8.RunesOfEncode(ACTION_CHAIN_START);
    Utf8.RunesOfEncode(ACTOR_DAEMON);
  }

  lemma CarriedTexts(lib: Lib, rows: seq<Row>, legacy: seq<Row>, events: seq<Event>)
    requires Promises(lib) && Built(lib, rows, |legacy|) && Carries(rows, legacy, events)
    requires forall j | 0 <= j < |events| :: Marshalled(lib, events[j])
    ensures (forall i | 0 <= i < |rows| :: WellFormed(lib, rows[i])) <==> TextsOk(lib, legacy, events)
  {
    hide Utf8.Valid, StoredAt, Promises, Seals, Increasing;
    var l := |legacy|;
    assert Marshalled(lib, events[0]);
    SealWellFormed(lib, rows[l], rows[..l]);
    forall j | 0 <= j < |events|
      ensures WellFormed(lib, rows[l + 1 + j]) <==> Utf8.Valid(events[j].actor) && Utf8.Valid(events[j].action)
    {
      assert Marshalled(lib, events[j]);
    }
    forall i | 0 <= i < l ensures rows[i] == legacy[i] { assert rows[..l][i] == rows[i]; }
    if TextsOk(lib, legacy, events) {
      forall i | 0 <= i < |rows| ensures WellFormed(lib, rows[i]) {
        if i < l {
          assert rows[i] == legacy[i];
        } else if i > l {
          var j := i - l - 1;
          assert Utf8.Valid(events[j].actor) && Utf8.Valid(events[j].action);
        }
      }
    }
  }

  /** Every log the appender builds verifies, with the right counts, exactly when the texts given to it were valid. */
  lemma AppendedLogVerifies(lib: Lib, legacy: seq<Row>, events: seq<Event>, anchors: seq<Anchor>)
    requires Promises(lib) && LegacyRows(legacy) && events != [] && Build(lib, legacy, events).Some?
    requires forall j | 0 <= j < |events| :: Marshalled(lib, events[j])
    requires FromHeads(anchors, Build(lib, legacy, events).value, |legacy|)
    ensures var rows := Build(lib, legacy, events).value;
      var v := Verdict(lib, anchors, rows);
      && (v.status.Intact? <==> TextsOk(lib, legacy, events))
      && (v.status.Intact? ==> v == Result(Intact, |legacy| + 1 + |events|, |legacy|, LastId(legacy) + 1, HeadOf(rows)))
      && (!v.status.Intact? ==> v.status.reason.BadRow?)
  {
    hide Built, FromHeads, WellFormed, Verdict, TextsOk, Build, Promises, Marshalled;
    var rows := Build(lib, legacy, events).value;
    assert Digests(lib) by { PromisedDigests(lib); }
    BuildShape(lib, legacy, events);
    CarriedTexts(lib, rows, legacy, events);
    var bad := FirstBad(lib, rows);
    if bad == |rows| {
      BuiltVerifies(lib, anchors, rows, |legacy|);
    } else {
      BuiltBreaks(lib, anchors, rows, |legacy|, bad);
    }
  }

  lemma PromisedDigests(lib: Lib)
    requires Promises(lib)
    ensures Digests(lib)
  {
  }

  /** A successful append of an actor that is not UTF-8 leaves a log that no longer verifies. */
  lemma UncheckedActorBreaksLog(lib: Lib, ts: bytes, action: bytes, detail: bytes)
    requires Promises(lib) && ClockText(lib, ts) && lib.jsonValid(detail) && Utf8.Valid(detail) && action != []
    ensures var events := [Event(ts, ts, [0xFF], action, detail)];
      Build(lib, [], events).Some? && Verdict(lib, [], Build(lib, [], events).value).status.Broken?
  {
    hide Verdict, Utf8.Valid, AppendSpec, Promises;
    var e := Event(ts, ts, [0xFF], action, detail);
    var events := [e];
    PromisedDigests(lib);
    FirstAppendSucceeds(lib, e);
    BuildOne(lib, e);
    LoneByte();
    AppendedLogVerifies(lib, [], events, []);
    assert events[0] == e;
  }

  lemma BuildOne(lib: Lib, e: Event)
    ensures Build(lib, [], [e]) == AppendSpec(lib, [], e)
  {
    hide AppendSpec;
    assert [e][..0] == [];
    assert Build(lib, [], []) == Some([]);
  }

  lemma LoneByte()
    ensures !Utf8.Valid([0xFF])
  {
  }

  lemma FirstAppendSucceeds(lib: Lib, e: Event)
    requires Digests(lib)
    ensures AppendSpec(lib, [], e).Some? <==> e.actor != [] && e.action != []
  {
    hide Link, Hex.Encode, HashInput, Hex.DecodeHash, StartSpec, Seals;
    StartSucceeds(lib, e.startTs);
    StartChainBuilds(lib, [], e.startTs);
    var t := StartSpec(lib, [], e.startTs).value;
    assert StoredAt(lib, t, 0) && t[..1] == t;
    LinkDecodes(lib, t);
  }

  lemma StartSucceeds(lib: Lib, ts: bytes)
    ensures StartSpec(lib, [], ts).Some?
  {
    hide Link, Hex.Encode, HashInput, AnyStored, AllHashable;
    NoRows();
  }

  lemma NoRows()
    ensures !AnyStored([]) && AllHashable([])
  {
  }

  // ---- Which appends succeed ----

  lemma InsertExactly(lib: Lib, rows: seq<Row>, prev: bytes, r: Row)
    ensures InsertSpec(lib, rows, prev, r).Some? <==> -0x20_0000_0000_0000 < r.id < 0x20_0000_0000_0000
  {
    hide Hex.Encode, HashInput;
  }

  lemma HeadDecodes(lib: Lib, rows: seq<Row>, l: nat)
    requires Digests(lib) && Built(lib, rows, l)
    ensures rows != [] && rows[|rows| - 1].hash.Some? && Hex.DecodeHash(rows[|rows| - 1].hash.value).Some?
  {
    hide Link, Hex.Encode, Hex.DecodeHash, Seals;
    assert StoredAt(lib, rows, |rows| - 1) && rows[..|rows|] == rows;
    LinkDecodes(lib, rows);
  }

  /** To a chain that has started, every event with an actor and an action can be appended, while ids last. */
  lemma AppendsExactly(lib: Lib, rows: seq<Row>, l: nat, e: Event)
    requires Digests(lib) && Built(lib, rows, l)
    ensures AppendSpec(lib, rows, e).Some?
       <==> e.actor != [] && e.action != [] && LastId(rows) + 1 < 0x20_0000_0000_0000
  {
    hide Hex.DecodeHash, InsertSpec, StartSpec, Link, StoredAt, Seals;
    HeadDecodes(lib, rows, l);
    var prev := Hex.DecodeHash(rows[|rows| - 1].hash.value).value;
    InsertExactly(lib, rows, prev, Row(LastId(rows) + 1, e.ts, e.actor, e.action, e.detail, None));
    LastInRange(lib, rows, l);
  }

  lemma LastInRange(lib: Lib, rows: seq<Row>, l: nat)
    requires Built(lib, rows, l)
    ensures -0x20_0000_0000_0000 < LastId(rows) < 0x20_0000_0000_0000
  {
    hide Link, Hex.Encode, Seals;
    assert StoredAt(lib, rows, |rows| - 1);
  }

  predicate InRange(id: int) { -0x20_0000_0000_0000 < id < 0x20_0000_0000_0000 }

  lemma StartsExactly(lib: Lib, rows: seq<Row>, ts: bytes)
    requires LegacyRows(rows)
    ensures StartSpec(lib, rows, ts).Some? <==>
            InRange(LastId(rows) + 1) && forall i | 0 <= i < |rows| :: InRange(rows[i].id)
  {
    hide InsertSpec, Link, StartRow, LastId;
    InsertExactly(lib, rows, Link(lib, rows), StartRow(lib, rows, ts));
    StartRowId(lib, rows, ts);
  }

  lemma AppendStarts(lib: Lib, rows: seq<Row>, e: Event)
    requires Digests(lib) && LegacyRows(rows)
    ensures AppendSpec(lib, rows, e) ==
      var t := StartSpec(lib, rows, e.startTs); if t.None? then None else AppendSpec(lib, t.value, e)
  {
    hide StartSpec, AfterHead, Built, Increasing, LastId, StoredAt;
    if StartSpec(lib, rows, e.startTs).Some? { StartChainBuilds(lib, rows, e.startTs); }
  }

  /** The first append to legacy rows seals them: it succeeds exactly when, besides, each of them can be hashed. */
  lemma FirstAppendsExactly(lib: Lib, rows: seq<Row>, e: Event)
    requires Digests(lib) && LegacyRows(rows)
    ensures AppendSpec(lib, rows, e).Some?
       <==> && e.actor != [] && e.action != [] && InRange(LastId(rows) + 1) && InRange(LastId(rows) + 2)
            && forall i | 0 <= i < |rows| :: InRange(rows[i].id)
  {
    hide AppendSpec, StartSpec, LegacyRows, Digests, Built, StoredAt, Increasing;
    AppendStarts(lib, rows, e);
    StartsExactly(lib, rows, e.startTs);
    if StartSpec(lib, rows, e.startTs).Some? {
      StartChainBuilds(lib, rows, e.startTs);
      AppendsExactly(lib, StartSpec(lib, rows, e.startTs).value, |rows|, e);
    }
  }

  lemma StartRowId(lib: Lib, rows: seq<Row>, ts: bytes)
    ensures StartRow(lib, rows, ts).id == LastId(rows) + 1
  {
  }
}
