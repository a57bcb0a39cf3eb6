/**
 What every verdict of Verify means, stated on the rows themselves: which row is
 named, that everything before it is in order, and what is wrong with it.
 */
module ChainVerdict {
  import opened Base
  import opened Chain
  import opened ChainAnchors
  import opened ChainLog
  import opened ChainRuns
  import Hex
  import Utf8

  // ---- The conditions of audit.md, row by row ----

  /** Some row before k has a stored hash. */
  predicate Begun(rows: seq<Row>, k: nat)
    requires k <= |rows|
  {
    exists i :: 0 <= i < k && rows[i].hash.Some?
  }

  /** The row seals the rows before it. */
  predicate SealsRows(lib: Lib, r: Row, legacy: seq<Row>) {
    && r.action == Ascii(ACTION_CHAIN_START) && r.actor == Ascii(ACTOR_DAEMON)
    && lib.startDetail(r.detail) == Some(Legacy(LastId(legacy), |legacy|))
  }

  /** A stored row is in its place: the next id once the chain has begun, and a seal where it begins. */
  predicate InPlace(lib: Lib, rows: seq<Row>, k: nat)
    requires k < |rows|
  {
    if Begun(rows, k) then k > 0 && rows[k].id == rows[k - 1].id + 1 else SealsRows(lib, rows[k], rows[..k])
  }

  ghost predicate Hashed(lib: Lib, rows: seq<Row>, k: nat)
    requires k < |rows|
  {
    Canonicalizable(rows[k]) && rows[k].hash == Some(Hex.Encode(Link(lib, rows[..k + 1])))
  }

  predicate AnchorsMet(anchors: seq<Anchor>, r: Row) {
    r.hash.Some? && AnchorsHold(anchors, r.id, r.hash.value)
  }

  /** The bytes are the UTF-8 of some text. */
  ghost predicate IsText(b: bytes) { exists s: string :: Utf8.Encode(s) == b }

  lemma ValidIsText(b: bytes)
    ensures Utf8.Valid(b) <==> IsText(b)
  {
    if Utf8.Valid(b) { Utf8.EncodeOfRunes(b); }
    if s: string :| Utf8.Encode(s) == b { Utf8.RunesOfEncode(s); }
  }

  /** What a well-formed row is: JSON in its detail, a time in its ts, and text in all four fields. */
  lemma WellFormedExact(lib: Lib, r: Row)
    ensures WellFormed(lib, r)
       <==> && lib.jsonValid(r.detail) && lib.timeValid(r.ts)
            && IsText(r.ts) && IsText(r.actor) && IsText(r.action) && IsText(r.detail)
  {
    hide Utf8.Valid, IsText;
    ValidIsText(r.ts);
    ValidIsText(r.actor);
    ValidIsText(r.action);
    ValidIsText(r.detail);
  }

  /** A row without a stored hash before the chain begins. */
  predicate IsLegacy(rows: seq<Row>, k: nat)
    requires k < |rows|
  {
    rows[k].hash.None? && !Begun(rows, k)
  }

  /** Row k meets every condition. */
  ghost predicate Passes(lib: Lib, anchors: seq<Anchor>, rows: seq<Row>, k: nat)
    requires k < |rows|
  {
    && WellFormed(lib, rows[k]) && Canonicalizable(rows[k])
    && (IsLegacy(rows, k) || (InPlace(lib, rows, k) && Hashed(lib, rows, k) && AnchorsMet(anchors, rows[k])))
  }

  /** Row k fails the condition its reason names, and none that is tested earlier. */
  ghost predicate Fails(lib: Lib, anchors: seq<Anchor>, rows: seq<Row>, k: nat, reason: Reason)
    requires k < |rows|
  {
    match reason
    case Gap => Begun(rows, k) && !InPlace(lib, rows, k)
    case Unchained => Begun(rows, k) && InPlace(lib, rows, k) && rows[k].hash.None?
    case ChainStart => !Begun(rows, k) && rows[k].hash.Some? && !InPlace(lib, rows, k)
    case HashMismatch => rows[k].hash.Some? && InPlace(lib, rows, k) && !Hashed(lib, rows, k)
    case BadRow =>
      || (IsLegacy(rows, k) && !(WellFormed(lib, rows[k]) && Canonicalizable(rows[k])))
      || (InPlace(lib, rows, k) && Hashed(lib, rows, k) && !WellFormed(lib, rows[k]))
    case AnchorMismatch =>
      InPlace(lib, rows, k) && Hashed(lib, rows, k) && WellFormed(lib, rows[k]) && !AnchorsMet(anchors, rows[k])
    case AnchorMissing => false
  }

  /** The first row that does not pass is row k, for this reason. */
  ghost predicate BreaksAt(lib: Lib, anchors: seq<Anchor>, rows: seq<Row>, k: nat, reason: Reason) {
    k < |rows| && Fails(lib, anchors, rows, k, reason) && forall i: nat | i < k :: Passes(lib, anchors, rows, i)
  }

  ghost predicate AllPass(lib: Lib, anchors: seq<Anchor>, rows: seq<Row>) {
    forall i: nat | i < |rows| :: Passes(lib, anchors, rows, i)
  }

  predicate OnRow(rows: seq<Row>, id: int) { exists i :: 0 <= i < |rows| && rows[i].id == id }

  predicate NoneAbsent(anchors: seq<Anchor>, rows: seq<Row>) {
    forall i | 0 <= i < |anchors| :: OnRow(rows, anchors[i].id)
  }

  /** The least anchored id that is on no row. */
  predicate LeastAbsent(anchors: seq<Anchor>, rows: seq<Row>, id: int) {
    && Anchored(anchors, id) && !OnRow(rows, id)
    && forall i | 0 <= i < |anchors| && !OnRow(rows, anchors[i].id) :: id <= anchors[i].id
  }

  /** The first row without a stored hash that an anchor names. */
  predicate FirstBare(anchors: seq<Anchor>, rows: seq<Row>, k: nat) {
    && k < |rows| && rows[k].hash.None? && Anchored(anchors, rows[k].id)
    && forall i | 0 <= i < k && rows[i].hash.None? :: !Anchored(anchors, rows[i].id)
  }

  predicate NoneBare(anchors: seq<Anchor>, rows: seq<Row>) {
    forall i | 0 <= i < |rows| && rows[i].hash.None? :: !Anchored(anchors, rows[i].id)
  }

  /** What a status says about the log. */
  ghost predicate Says(lib: Lib, anchors: seq<Anchor>, rows: seq<Row>, s: Status) {
    match s
    case Intact => AllPass(lib, anchors, rows) && NoneAbsent(anchors, rows) && NoneBare(anchors, rows)
    case Broken(id, reason) =>
      || (exists k: nat :: BreaksAt(lib, anchors, rows, k, reason) && rows[k].id == id)
      || (AllPass(lib, anchors, rows) && reason == AnchorMissing && LeastAbsent(anchors, rows, id))
      || (AllPass(lib, anchors, rows) && reason == AnchorMismatch && NoneAbsent(anchors, rows)
          && exists k: nat :: FirstBare(anchors, rows, k) && rows[k].id == id)
  }

  // ---- The walk ----

  function Ids(anchors: seq<Anchor>, rows: seq<Row>): set<int> {
    set i | 0 <= i < |rows| && Anchored(anchors, rows[i].id) :: rows[i].id
  }

  /** Where the chain begins: the first stored row, or the end. */
  function FirstStored(rows: seq<Row>): (f: nat)
    ensures f <= |rows| && (forall i | 0 <= i < f :: rows[i].hash.None?) && (f < |rows| ==> rows[f].hash.Some?)
  {
    if rows == [] then 0
    else
      var f := FirstStored(rows[..|rows| - 1]);
      if f == |rows| - 1 && rows[f].hash.None? then |rows| else f
  }

  function ChainedFrom(rows: seq<Row>): int {
    var f := FirstStored(rows);
    if f < |rows| then rows[f].id else 0
  }

  /** What the walk carries after rows that pass. */
  ghost predicate Carried(lib: Lib, anchors: seq<Anchor>, rows: seq<Row>, st: Walk) {
    && st.status.Intact? && st.prev == Link(lib, rows) && st.lastId == LastId(rows) && st.rows == |rows|
    && st.started == Begun(rows, |rows|) && st.legacyRows == FirstStored(rows) && st.chainedFrom == ChainedFrom(rows)
    && st.seen == Ids(anchors, rows)
    && BareIs(anchors, rows, st.legacyAnchor)
  }

  lemma BegunNext(rows: seq<Row>, r: Row)
    ensures Begun(rows + [r], |rows|) == Begun(rows, |rows|)
    ensures Begun(rows + [r], |rows| + 1) == (Begun(rows, |rows|) || r.hash.Some?)
    ensures (rows + [r])[..|rows|] == rows && (rows + [r])[..|rows| + 1] == rows + [r]
  {
    var all := rows + [r];
    if Begun(rows, |rows|) {
      var i :| 0 <= i < |rows| && rows[i].hash.Some?;
      assert all[i].hash.Some?;
    }
    if r.hash.Some? { assert all[|rows|].hash.Some?; }
    if Begun(all, |rows|) {
      var i :| 0 <= i < |rows| && all[i].hash.Some?;
      assert rows[i].hash.Some?;
    }
  }

  lemma BegunFirst(rows: seq<Row>)
    ensures Begun(rows, |rows|) <==> FirstStored(rows) < |rows|
  {
    var f := FirstStored(rows);
    if f < |rows| { assert rows[f].hash.Some?; }
  }

  lemma FirstStoredNext(rows: seq<Row>, r: Row)
    ensures FirstStored(rows + [r]) == if !Begun(rows, |rows|) && r.hash.None? then |rows| + 1 else FirstStored(rows)
    ensures ChainedFrom(rows + [r]) == if !Begun(rows, |rows|) && r.hash.Some? then r.id else ChainedFrom(rows)
  {
    assert (rows + [r])[..|rows|] == rows;
    BegunFirst(rows);
  }

  /** The status after row k: intact if the row passes, and else the row's id with what fails. */
  ghost predicate Reports(lib: Lib, anchors: seq<Anchor>, rows: seq<Row>, k: nat, s: Status)
    requires k < |rows|
  {
    if Passes(lib, anchors, rows, k) then s.Intact?
    else s.Broken? && s.firstBad == rows[k].id && Fails(lib, anchors, rows, k, s.reason)
  }

  lemma LegacyStatus(lib: Lib, anchors: seq<Anchor>, rows: seq<Row>, st: Walk, r: Row)
    requires st.status.Intact? && IsLegacy(rows + [r], |rows|)
    ensures Reports(lib, anchors, rows + [r], |rows|, CheckLegacy(lib, anchors, st, r).status)
  {
    hide WellFormed, HashInput, Link, Hex.Encode, AnchorsHold, Anchored, InPlace, Begun;
  }

  /** A row that is not where it should be. */
  lemma PlaceStatus(lib: Lib, anchors: seq<Anchor>, rows: seq<Row>, k: nat, reason: Reason)
    requires k < |rows| && !IsLegacy(rows, k) && (InPlace(lib, rows, k) ==> rows[k].hash.None?)
    requires reason == if !Begun(rows, k) then ChainStart else if !InPlace(lib, rows, k) then Gap else Unchained
    ensures Reports(lib, anchors, rows, k, Broken(rows[k].id, reason))
  {
    hide WellFormed, HashInput, Link, Hex.Encode, AnchorsHold, Anchored, InPlace, Begun;
  }

  /** What CheckStored reports is what fails. */
  lemma StoredStatus(lib: Lib, anchors: seq<Anchor>, rows: seq<Row>, st: Walk, r: Row)
    requires r.hash.Some? && st.status.Intact? && st.prev == Link(lib, rows) && InPlace(lib, rows + [r], |rows|)
    ensures var all, k := rows + [r], |rows|;
            Reports(lib, anchors, all, k, CheckStored(lib, anchors, st, r).status)
  {
    hide WellFormed, HashInput, Link, Hex.Encode, AnchorsHold, InPlace, Begun;
    LinkSnoc(lib, rows, r);
    assert (rows + [r])[..|rows| + 1] == rows + [r];
  }

  lemma PlaceNext(lib: Lib, anchors: seq<Anchor>, rows: seq<Row>, st: Walk, r: Row)
    requires Carried(lib, anchors, rows, st)
    ensures InPlace(lib, rows + [r], |rows|)
       <==> if st.started then r.id == st.lastId + 1 else IsChainStart(lib, st.(rows := st.rows + 1), r)
  {
    BegunNext(rows, r);
    BegunFirst(rows);
    hide Link, Ascii, Ids, BareIs, FirstStored, ChainedFrom;
  }

  lemma CheckRowCases(lib: Lib, anchors: seq<Anchor>, st: Walk, r: Row)
    ensures var s1, after := st.(rows := st.rows + 1), CheckRow(lib, anchors, st, r);
            after.status ==
              if !st.started then
                if r.hash.None? then CheckLegacy(lib, anchors, s1, r).status
                else if IsChainStart(lib, s1, r) then
                  CheckStored(lib, anchors, s1.(started := true, chainedFrom := r.id), r).status
                else Broken(r.id, ChainStart)
              else if r.id != st.lastId + 1 then Broken(r.id, Gap)
              else if r.hash.None? then Broken(r.id, Unchained)
              else CheckStored(lib, anchors, s1, r).status
  {
    hide CheckLegacy, CheckStored, IsChainStart;
  }

  lemma StepStatus(lib: Lib, anchors: seq<Anchor>, rows: seq<Row>, st: Walk, r: Row)
    requires Carried(lib, anchors, rows, st)
    ensures Reports(lib, anchors, rows + [r], |rows|, CheckRow(lib, anchors, st, r).status)
  {
    hide WellFormed, Link, InPlace, Begun, CheckStored, CheckLegacy, IsChainStart, Reports, CheckRow, Ids, BareIs,
      LastId, HashInput, FirstStored, ChainedFrom;
    BegunNext(rows, r);
    PlaceNext(lib, anchors, rows, st, r);
    CheckRowCases(lib, anchors, st, r);
    var all, k, s1 := rows + [r], |rows|, st.(rows := st.rows + 1);
    assert s1.status.Intact? && s1.prev == Link(lib, rows) && s1.started == Begun(all, k);
    hide Carried;
    if !st.started && r.hash.None? {
      LegacyStatus(lib, anchors, rows, s1, r);
    } else if !InPlace(lib, all, k) {
      PlaceStatus(lib, anchors, all, k, if st.started then Gap else ChainStart);
    } else if r.hash.None? {
      PlaceStatus(lib, anchors, all, k, Unchained);
    } else if st.started {
      StoredStatus(lib, anchors, rows, s1, r);
    } else {
      StoredStatus(lib, anchors, rows, s1.(started := true, chainedFrom := r.id), r);
    }
  }

  // ---- What is carried on ----

  lemma IdsNext(anchors: seq<Anchor>, rows: seq<Row>, r: Row)
    ensures Ids(anchors, rows + [r]) == Ids(anchors, rows) + if Anchored(anchors, r.id) then {r.id} else {}
  {
    hide Anchored;
    var all := rows + [r];
    forall id | id in Ids(anchors, all)
      ensures id in Ids(anchors, rows) + if Anchored(anchors, r.id) then {r.id} else {}
    {
      var i :| 0 <= i < |all| && Anchored(anchors, all[i].id) && all[i].id == id;
      if i < |rows| { assert rows[i].id == id; }
    }
    forall id | id in Ids(anchors, rows) ensures id in Ids(anchors, all) {
      var i :| 0 <= i < |rows| && Anchored(anchors, rows[i].id) && rows[i].id == id;
      assert all[i].id == id;
    }
    assert all[|rows|] == r;
  }

  /** The first bare row that is anchored, or 0. */
  ghost predicate BareIs(anchors: seq<Anchor>, rows: seq<Row>, id: int) {
    if NoneBare(anchors, rows) then id == 0
    else exists k: nat :: FirstBare(anchors, rows, k) && rows[k].id == id
  }

  lemma BareNext(anchors: seq<Anchor>, rows: seq<Row>, r: Row, id: int)
    requires BareIs(anchors, rows, id) && (forall a | 0 <= a < |anchors| :: anchors[a].id > 0)
    ensures BareIs(anchors, rows + [r], if r.hash.None? && Anchored(anchors, r.id) && id == 0 then r.id else id)
  {
    var all := rows + [r];
    assert forall i | 0 <= i < |rows| :: all[i] == rows[i];
    if NoneBare(anchors, rows) {
      if r.hash.None? && Anchored(anchors, r.id) { assert FirstBare(anchors, all, |rows|); }
    } else {
      var k: nat :| FirstBare(anchors, rows, k) && rows[k].id == id;
      assert FirstBare(anchors, all, k) && !NoneBare(anchors, all);
    }
  }

  lemma LinkLast(lib: Lib, rows: seq<Row>, r: Row)
    ensures Link(lib, rows + [r]) == lib.sha256(HashInput(Link(lib, rows), r)) && LastId(rows + [r]) == r.id
  {
    LinkSnoc(lib, rows, r);
  }

  /** The fields after a row that passed. */
  lemma CheckRowFields(lib: Lib, anchors: seq<Anchor>, st: Walk, r: Row)
    requires CheckRow(lib, anchors, st, r).status.Intact? && st.status.Intact?
    ensures var next := CheckRow(lib, anchors, st, r);
            && next.prev == lib.sha256(HashInput(st.prev, r)) && next.lastId == r.id && next.rows == st.rows + 1
            && next.started == (st.started || r.hash.Some?)
            && next.legacyRows == st.legacyRows + (if !st.started && r.hash.None? then 1 else 0)
            && next.chainedFrom == (if !st.started && r.hash.Some? then r.id else st.chainedFrom)
            && next.seen == st.seen + (if Anchored(anchors, r.id) then {r.id} else {})
            && (r.hash.None? ==> !st.started)
            && next.legacyAnchor ==
                 if r.hash.None? && Anchored(anchors, r.id) && st.legacyAnchor == 0 then r.id else st.legacyAnchor
  {
    hide WellFormed, HashInput, Hex.Encode, AnchorsHold, Anchored, IsChainStart;
  }

  lemma StepCarried(lib: Lib, anchors: seq<Anchor>, rows: seq<Row>, st: Walk, r: Row)
    requires Carried(lib, anchors, rows, st) && (forall a | 0 <= a < |anchors| :: anchors[a].id > 0)
    requires CheckRow(lib, anchors, st, r).status.Intact?
    ensures Carried(lib, anchors, rows + [r], CheckRow(lib, anchors, st, r))
  {
    hide CheckRow, Link, HashInput, Begun, FirstStored, ChainedFrom, Ids, BareIs, LastId;
    CheckRowFields(lib, anchors, st, r);
    LinkLast(lib, rows, r);
    BegunNext(rows, r);
    BegunFirst(rows);
    FirstStoredNext(rows, r);
    IdsNext(anchors, rows, r);
    BareNext(anchors, rows, r, st.legacyAnchor);
  }

  lemma NothingCarried(lib: Lib, anchors: seq<Anchor>)
    ensures Carried(lib, anchors, [], Start(lib))
  {
    assert Ids(anchors, []) == {};
  }

  /** The walk over the rows: intact with what it carries if all pass, and else broken at the first that does not. */
  ghost predicate Walked(lib: Lib, anchors: seq<Anchor>, rows: seq<Row>, st: Walk) {
    if st.status.Intact? then AllPass(lib, anchors, rows) && Carried(lib, anchors, rows, st)
    else exists k: nat :: BrokeAt(lib, anchors, rows, st, k)
  }

  ghost predicate BrokeAt(lib: Lib, anchors: seq<Anchor>, rows: seq<Row>, st: Walk, k: nat) {
    && st.status.Broken? && BreaksAt(lib, anchors, rows, k, st.status.reason) && rows[k].id == st.status.firstBad
    && st.rows == k + 1 && st.legacyRows == FirstStored(rows[..k])
    && st.chainedFrom == ChainedFrom(if st.status.reason == ChainStart then rows[..k] else rows[..k + 1])
  }

  lemma BegunPrefix(a: seq<Row>, b: seq<Row>, k: nat)
    requires k <= |a| && k <= |b| && a[..k] == b[..k]
    ensures Begun(a, k) == Begun(b, k)
  {
    assert forall i | 0 <= i < k :: a[i] == a[..k][i] && b[i] == b[..k][i];
  }

  /** Whether a row passes depends on the rows up to it. */
  lemma SamePrefix(lib: Lib, anchors: seq<Anchor>, a: seq<Row>, b: seq<Row>, k: nat, reason: Reason)
    requires k < |a| && k < |b| && a[..k + 1] == b[..k + 1]
    ensures Passes(lib, anchors, a, k) == Passes(lib, anchors, b, k)
    ensures Fails(lib, anchors, a, k, reason) == Fails(lib, anchors, b, k, reason)
  {
    hide WellFormed, Begun, InPlace, Hashed, AnchorsMet, Canonicalizable;
    SameConditions(lib, a, b, k);
    SamePasses(lib, anchors, a, b, k);
  }

  lemma SamePasses(lib: Lib, anchors: seq<Anchor>, a: seq<Row>, b: seq<Row>, k: nat)
    requires k < |a| && k < |b| && a[k] == b[k] && Begun(a, k) == Begun(b, k)
    requires InPlace(lib, a, k) == InPlace(lib, b, k) && Hashed(lib, a, k) == Hashed(lib, b, k)
    ensures Passes(lib, anchors, a, k) == Passes(lib, anchors, b, k)
  {
    hide WellFormed, Begun, InPlace, Hashed, AnchorsMet, Canonicalizable;
  }

  lemma SameConditions(lib: Lib, a: seq<Row>, b: seq<Row>, k: nat)
    requires k < |a| && k < |b| && a[..k + 1] == b[..k + 1]
    ensures a[k] == b[k] && Begun(a, k) == Begun(b, k) && InPlace(lib, a, k) == InPlace(lib, b, k)
    ensures Hashed(lib, a, k) == Hashed(lib, b, k)
  {
    hide Link, Hex.Encode, Begun, SealsRows, Canonicalizable;
    assert a[..k + 1][..k] == a[..k] && b[..k + 1][..k] == b[..k];
    assert a[k] == a[..k + 1][k] && b[k] == b[..k + 1][k];
    if k > 0 { assert a[k - 1] == a[..k + 1][k - 1] && b[k - 1] == b[..k + 1][k - 1]; }
    BegunPrefix(a, b, k);
  }

  lemma PrefixPasses(lib: Lib, anchors: seq<Anchor>, rows: seq<Row>, r: Row, k: nat, reason: Reason)
    requires k < |rows|
    ensures Passes(lib, anchors, rows + [r], k) == Passes(lib, anchors, rows, k)
    ensures Fails(lib, anchors, rows + [r], k, reason) == Fails(lib, anchors, rows, k, reason)
  {
    assert (rows + [r])[..k + 1] == rows[..k + 1];
    SamePrefix(lib, anchors, rows + [r], rows, k, reason);
  }

  lemma BrokenFields(lib: Lib, anchors: seq<Anchor>, st: Walk, r: Row)
    requires CheckRow(lib, anchors, st, r).status.Broken? && st.status.Intact?
    ensures var next := CheckRow(lib, anchors, st, r);
            && next.rows == st.rows + 1 && next.legacyRows == st.legacyRows
            && next.chainedFrom
               == if !st.started && r.hash.Some? && next.status.reason != ChainStart then r.id else st.chainedFrom
  {
    hide WellFormed, HashInput, Hex.Encode, AnchorsHold, Anchored, IsChainStart;
  }

  lemma WalkedNext(lib: Lib, anchors: seq<Anchor>, rows: seq<Row>, st: Walk, r: Row)
    requires Walked(lib, anchors, rows, st) && st.status.Intact?
    requires forall a | 0 <= a < |anchors| :: anchors[a].id > 0
    ensures Walked(lib, anchors, rows + [r], CheckRow(lib, anchors, st, r))
  {
    hide CheckRow, Passes, Fails, Carried, FirstStored, ChainedFrom;
    var all, k, next := rows + [r], |rows|, CheckRow(lib, anchors, st, r);
    StepStatus(lib, anchors, rows, st, r);
    forall i: nat | i < |rows| ensures Passes(lib, anchors, all, i) { PrefixPasses(lib, anchors, rows, r, i, Gap); }
    if next.status.Intact? {
      NoIntactFailure(lib, anchors, all, k, next.status);
      StepCarried(lib, anchors, rows, st, r);
    } else {
      BrokenFields(lib, anchors, st, r);
      CarriedCounts(lib, anchors, rows, st);
      FirstStoredNext(rows, r);
      assert all[..k] == rows && all[..k + 1] == all;
      assert BrokeAt(lib, anchors, all, next, k);
    }
  }

  lemma NoIntactFailure(lib: Lib, anchors: seq<Anchor>, rows: seq<Row>, k: nat, s: Status)
    requires k < |rows| && Reports(lib, anchors, rows, k, s) && s.Intact?
    ensures Passes(lib, anchors, rows, k)
  {
    hide Passes, Fails;
  }

  lemma CarriedCounts(lib: Lib, anchors: seq<Anchor>, rows: seq<Row>, st: Walk)
    requires Carried(lib, anchors, rows, st)
    ensures st.rows == |rows| && st.legacyRows == FirstStored(rows) && st.chainedFrom == ChainedFrom(rows)
    ensures st.started == Begun(rows, |rows|)
  {
    hide Link, Ids, BareIs, FirstStored, ChainedFrom, LastId;
  }

  lemma WalkedBroken(lib: Lib, anchors: seq<Anchor>, rows: seq<Row>, st: Walk, r: Row)
    requires Walked(lib, anchors, rows, st) && st.status.Broken?
    ensures Walked(lib, anchors, rows + [r], st)
  {
    hide Passes, Fails, FirstStored, ChainedFrom;
    var all, reason := rows + [r], st.status.reason;
    var k: nat :| BrokeAt(lib, anchors, rows, st, k);
    forall i: nat | i < k ensures Passes(lib, anchors, all, i) { PrefixPasses(lib, anchors, rows, r, i, reason); }
    PrefixPasses(lib, anchors, rows, r, k, reason);
    assert all[..k] == rows[..k] && all[..k + 1] == rows[..k + 1];
    assert BrokeAt(lib, anchors, all, st, k);
  }

  lemma {:induction false} WalkIs(lib: Lib, anchors: seq<Anchor>, rows: seq<Row>)
    requires forall a | 0 <= a < |anchors| :: anchors[a].id > 0
    ensures Walked(lib, anchors, rows, WalkRows(lib, anchors, rows))
  {
    hide CheckRow, Walked, Carried, AllPass, WalkRows;
    if rows == [] {
      WalkNothing(lib, anchors);
      NothingCarried(lib, anchors);
      WalkedStart(lib, anchors);
    } else {
      var init, r := rows[..|rows| - 1], rows[|rows| - 1];
      assert rows == init + [r];
      WalkIs(lib, anchors, init);
      WalkSnoc(lib, anchors, init, r);
      var st := WalkRows(lib, anchors, init);
      if st.status.Intact? { WalkedNext(lib, anchors, init, st, r); } else { WalkedBroken(lib, anchors, init, st, r); }
    }
  }

  lemma WalkedStart(lib: Lib, anchors: seq<Anchor>)
    requires Carried(lib, anchors, [], Start(lib))
    ensures Walked(lib, anchors, [], Start(lib))
  {
    hide Carried;
  }

  // ---- The end of the walk ----

  lemma {:induction false} LeastMissingIs(anchors: seq<Anchor>, seen: set<int>)
    requires forall a | 0 <= a < |anchors| :: anchors[a].id > 0
    ensures var m := LeastMissing(anchors, seen);
            && (m == 0 <==> forall i | 0 <= i < |anchors| :: anchors[i].id in seen)
            && (m != 0 ==> m > 0 && Anchored(anchors, m) && m !in seen)
            && (m != 0 ==> forall i | 0 <= i < |anchors| && anchors[i].id !in seen :: m <= anchors[i].id)
  {
    if anchors != [] {
      var init, last := anchors[..|anchors| - 1], anchors[|anchors| - 1];
      LeastMissingIs(init, seen);
      var m, before := LeastMissing(anchors, seen), LeastMissing(init, seen);
      assert forall i | 0 <= i < |init| :: init[i] == anchors[i];
      if before != 0 && m == before {
        var i :| 0 <= i < |init| && init[i].id == m;
        assert anchors[i].id == m;
      }
      if m == last.id && m != before { assert anchors[|anchors| - 1].id == m; }
    }
  }

  lemma SeenOnRow(anchors: seq<Anchor>, rows: seq<Row>, id: int)
    requires Anchored(anchors, id)
    ensures id in Ids(anchors, rows) <==> OnRow(rows, id)
  {
    hide Anchored;
  }

  lemma FinishSays(lib: Lib, anchors: seq<Anchor>, rows: seq<Row>, st: Walk)
    requires forall a | 0 <= a < |anchors| :: anchors[a].id > 0
    requires Walked(lib, anchors, rows, st) && st.status.Intact?
    ensures Says(lib, anchors, rows, Finish(anchors, st).status)
  {
    hide Passes, Link, FirstStored, ChainedFrom, LastId, LeastMissing, Ids, OnRow;
    LeastMissingIs(anchors, st.seen);
    forall i | 0 <= i < |anchors| ensures anchors[i].id in st.seen <==> OnRow(rows, anchors[i].id) {
      assert Anchored(anchors, anchors[i].id);
      SeenOnRow(anchors, rows, anchors[i].id);
    }
    var m := LeastMissing(anchors, st.seen);
    if m != 0 { SeenOnRow(anchors, rows, m); }
  }

  /** Whatever Verify reports is so. */
  lemma VerdictSays(lib: Lib, anchors: seq<Anchor>, rows: seq<Row>)
    requires forall a | 0 <= a < |anchors| :: anchors[a].id > 0
    ensures Says(lib, anchors, rows, Verdict(lib, anchors, rows).status)
  {
    hide WalkRows, Passes, FirstStored, ChainedFrom;
    WalkIs(lib, anchors, rows);
    var st := WalkRows(lib, anchors, rows);
    if st.status.Intact? {
      FinishSays(lib, anchors, rows, st);
    } else {
      var k: nat :| BrokeAt(lib, anchors, rows, st, k);
      assert BreaksAt(lib, anchors, rows, k, st.status.reason);
    }
  }

  /** A row that passes does not fail, and a row fails for one reason only. */
  lemma OneReason(lib: Lib, anchors: seq<Anchor>, rows: seq<Row>, k: nat, a: Reason, b: Reason)
    requires k < |rows| && Fails(lib, anchors, rows, k, a)
    ensures !Passes(lib, anchors, rows, k) && (Fails(lib, anchors, rows, k, b) ==> a == b)
  {
    HashedIsStored(lib, rows, k);
    hide WellFormed, Begun, InPlace, Hashed, AnchorsMet;
  }

  lemma HashedIsStored(lib: Lib, rows: seq<Row>, k: nat)
    requires k < |rows|
    ensures Hashed(lib, rows, k) ==> rows[k].hash.Some? && Canonicalizable(rows[k])
  {
  }

  lemma BreaksOnce(lib: Lib, anchors: seq<Anchor>, rows: seq<Row>, j: nat, a: Reason, k: nat, b: Reason)
    requires BreaksAt(lib, anchors, rows, j, a)
    ensures !AllPass(lib, anchors, rows) && (BreaksAt(lib, anchors, rows, k, b) ==> j == k && a == b)
  {
    OneReason(lib, anchors, rows, j, a, b);
    hide Passes, Fails;
    if BreaksAt(lib, anchors, rows, k, b) {
      OneReason(lib, anchors, rows, k, b, a);
    }
  }

  lemma AbsentOnce(anchors: seq<Anchor>, rows: seq<Row>, x: int, y: int)
    requires LeastAbsent(anchors, rows, x)
    ensures !NoneAbsent(anchors, rows) && (LeastAbsent(anchors, rows, y) ==> x == y)
  {
    hide OnRow;
    var i :| 0 <= i < |anchors| && anchors[i].id == x;
    if LeastAbsent(anchors, rows, y) { var j :| 0 <= j < |anchors| && anchors[j].id == y; }
  }

  lemma BareOnce(anchors: seq<Anchor>, rows: seq<Row>, j: nat, k: nat)
    requires FirstBare(anchors, rows, j)
    ensures !NoneBare(anchors, rows) && (FirstBare(anchors, rows, k) ==> j == k)
  {
  }

  /** Two statuses that are both so are the same. */
  lemma SaysOnce(lib: Lib, anchors: seq<Anchor>, rows: seq<Row>, s: Status, t: Status)
    requires Says(lib, anchors, rows, s) && Says(lib, anchors, rows, t)
    ensures s == t
  {
    hide Passes, Fails, AllPass, BreaksAt, LeastAbsent, NoneAbsent, FirstBare, NoneBare;
    if k: nat, reason :| BreaksAt(lib, anchors, rows, k, reason) {
      forall j: nat, other | BreaksAt(lib, anchors, rows, j, other) ensures j == k && other == reason {
        BreaksOnce(lib, anchors, rows, k, reason, j, other);
      }
      BreaksOnce(lib, anchors, rows, k, reason, k, reason);
    } else if id :| LeastAbsent(anchors, rows, id) {
      forall other | LeastAbsent(anchors, rows, other) ensures other == id { AbsentOnce(anchors, rows, id, other); }
      AbsentOnce(anchors, rows, id, id);
    } else if k: nat :| FirstBare(anchors, rows, k) {
      forall j: nat | FirstBare(anchors, rows, j) ensures j == k { BareOnce(anchors, rows, k, j); }
      BareOnce(anchors, rows, k, k);
    }
  }

  /** Verify reports a status exactly when it is so. */
  lemma VerdictExact(lib: Lib, anchors: seq<Anchor>, rows: seq<Row>, s: Status)
    requires forall a | 0 <= a < |anchors| :: anchors[a].id > 0
    ensures Verdict(lib, anchors, rows).status == s <==> Says(lib, anchors, rows, s)
  {
    hide Says, Verdict;
    VerdictSays(lib, anchors, rows);
    if Says(lib, anchors, rows, s) { SaysOnce(lib, anchors, rows, s, Verdict(lib, anchors, rows).status); }
  }

  /** The head reported is the last row. */
  lemma VerdictHead(lib: Lib, anchors: seq<Anchor>, rows: seq<Row>)
    ensures var h := Verdict(lib, anchors, rows).head;
            && (h.None? <==> rows == [])
            && (h.Some? ==>
                  var last := rows[|rows| - 1];
                  && h.value.id == last.id && h.value.ts == last.ts
                  && h.value.hash == if last.hash.None? then "" else last.hash.value)
  {
  }

  /** The counts: rows looked at, rows before the chain, and where the chain begins. */
  lemma VerdictCounts(lib: Lib, anchors: seq<Anchor>, rows: seq<Row>, k: nat, reason: Reason)
    requires forall a | 0 <= a < |anchors| :: anchors[a].id > 0
    ensures var v := Verdict(lib, anchors, rows);
            && (AllPass(lib, anchors, rows) ==>
                  v.rows == |rows| && v.legacyRows == FirstStored(rows) && v.chainedFrom == ChainedFrom(rows))
            && (BreaksAt(lib, anchors, rows, k, reason) ==>
                  && v.rows == k + 1 && v.legacyRows == FirstStored(rows[..k])
                  && v.chainedFrom == ChainedFrom(if reason == ChainStart then rows[..k] else rows[..k + 1]))
  {
    hide WalkRows, FirstStored, ChainedFrom, AllPass, BreaksAt, LeastMissing, Carried;
    WalkIs(lib, anchors, rows);
    var st := WalkRows(lib, anchors, rows);
    FinishCounts(anchors, st);
    if st.status.Intact? {
      CarriedCounts(lib, anchors, rows, st);
      if BreaksAt(lib, anchors, rows, k, reason) { BreaksOnce(lib, anchors, rows, k, reason, k, reason); }
    } else {
      var j: nat :| BrokeAt(lib, anchors, rows, st, j);
      BreaksOnce(lib, anchors, rows, j, st.status.reason, k, reason);
    }
  }

  lemma FinishCounts(anchors: seq<Anchor>, st: Walk)
    ensures var f := Finish(anchors, st);
            f.rows == st.rows && f.legacyRows == st.legacyRows && f.chainedFrom == st.chainedFrom
  {
    hide LeastMissing;
  }

  // ---- Tampering with a built log ----

  /** The first of the tests that row k fails. */
  ghost function FirstReason(lib: Lib, rows: seq<Row>, k: nat): Reason
    requires k < |rows|
  {
    if IsLegacy(rows, k) then BadRow
    else if !InPlace(lib, rows, k) then if Begun(rows, k) then Gap else ChainStart
    else if rows[k].hash.None? then Unchained
    else if !Hashed(lib, rows, k) then HashMismatch
    else if !WellFormed(lib, rows[k]) then BadRow
    else AnchorMismatch
  }

  lemma SomeReason(lib: Lib, anchors: seq<Anchor>, rows: seq<Row>, k: nat)
    requires k < |rows| && !Passes(lib, anchors, rows, k)
    ensures Fails(lib, anchors, rows, k, FirstReason(lib, rows, k))
  {
    hide WellFormed, Begun, InPlace, Hashed, AnchorsMet, Canonicalizable;
    HashedIsStored(lib, rows, k);
  }

  /** The first row that does not pass is the one reported. */
  lemma FirstReported(lib: Lib, anchors: seq<Anchor>, rows: seq<Row>, k: nat)
    requires forall a | 0 <= a < |anchors| :: anchors[a].id > 0
    requires k < |rows| && !Passes(lib, anchors, rows, k) && forall i: nat | i < k :: Passes(lib, anchors, rows, i)
    ensures var s := Verdict(lib, anchors, rows).status;
            s.Broken? && s.firstBad == rows[k].id && Fails(lib, anchors, rows, k, s.reason)
  {
    hide Passes, Fails, Verdict;
    var reason := FirstReason(lib, rows, k);
    SomeReason(lib, anchors, rows, k);
    assert BreaksAt(lib, anchors, rows, k, reason);
    VerdictExact(lib, anchors, rows, Broken(rows[k].id, reason));
  }

  /** A log as the appender leaves it, with well-formed texts and anchors taken from it. */
  ghost predicate Genuine(lib: Lib, anchors: seq<Anchor>, rows: seq<Row>, l: nat) {
    && Promises(lib) && Built(lib, rows, l) && FromHeads(anchors, rows, l)
    && forall i | 0 <= i < |rows| :: WellFormed(lib, rows[i])
  }

  lemma GenuinePasses(lib: Lib, anchors: seq<Anchor>, rows: seq<Row>, l: nat)
    requires Genuine(lib, anchors, rows, l)
    ensures AllPass(lib, anchors, rows) && forall a | 0 <= a < |anchors| :: anchors[a].id > 0
  {
    hide Verdict, AllPass, WellFormed, Built, Promises;
    BuiltVerifies(lib, anchors, rows, l);
    VerdictExact(lib, anchors, rows, Intact);
  }

  /** Row k of a log with its texts changed. */
  predicate Altered(rows: seq<Row>, k: nat, x: Row)
    requires k < |rows|
  {
    x.id == rows[k].id && x.hash == rows[k].hash && ContentOf(x) != ContentOf(rows[k])
  }

  lemma LegacyPasses(lib: Lib, anchors: seq<Anchor>, rows: seq<Row>, k: nat)
    requires k < |rows| && (forall i | 0 <= i <= k :: rows[i].hash.None?)
    ensures Passes(lib, anchors, rows, k) <==> WellFormed(lib, rows[k]) && Canonicalizable(rows[k])
  {
    hide WellFormed, Hex.Encode, Link;
  }

  /** An unchanged stored hash on top of a changed history does not match. */
  lemma ChangedHistory(lib: Lib, anchors: seq<Anchor>, a: seq<Row>, b: seq<Row>, k: nat, m: nat)
    requires Digests(lib) && k <= m < |a| && |a| == |b| && ContentOf(a[k]) != ContentOf(b[k])
    requires a[m].hash.Some? && a[m].hash == b[m].hash
    requires forall i: nat | i <= m :: Passes(lib, anchors, a, i)
    requires forall i: nat | i < m :: Passes(lib, anchors, b, i)
    requires CollisionFree(lib, Inputs(lib, a) + Inputs(lib, b))
    ensures !Passes(lib, anchors, b, m)
  {
    hide Link, Inputs, CollisionFree, Hex.Encode, ContentOf, Passes, Contents, Sound;
    if Passes(lib, anchors, b, m) {
      var x, y := a[..m + 1], b[..m + 1];
      PassesHashed(lib, anchors, a, m);
      PassesHashed(lib, anchors, b, m);
      Hex.EncodeInjective(Link(lib, x), Link(lib, y));
      InputsOfPrefix(lib, a, m + 1);
      InputsOfPrefix(lib, b, m + 1);
      LinkFixesHistory(lib, x, y, Inputs(lib, a) + Inputs(lib, b));
      ContentAt(x, k);
      ContentAt(y, k);
      assert false;
    }
  }

  lemma PassesHashed(lib: Lib, anchors: seq<Anchor>, rows: seq<Row>, m: nat)
    requires m < |rows| && rows[m].hash.Some? && forall i: nat | i <= m :: Passes(lib, anchors, rows, i)
    ensures rows[m].hash == Some(Hex.Encode(Link(lib, rows[..m + 1]))) && Sound(lib, rows[..m + 1])
  {
    hide Link, Hex.Encode, InPlace, AnchorsMet, Begun, Utf8.Valid;
    assert Passes(lib, anchors, rows, m);
    forall i: nat | i <= m ensures TextsValid(rows[i]) && Canonicalizable(rows[i]) {
      assert Passes(lib, anchors, rows, i);
    }
  }

  lemma ContentAt(rows: seq<Row>, k: nat)
    requires k < |rows|
    ensures Contents(rows)[k] == ContentOf(rows[k])
  {
  }

  /**
   A genuine log in which the texts of one row were changed to anything: Verify names that row,
   or the seal when the row is a legacy row, which has no hash of its own, and still well formed.
   */
  lemma AlteredRowFound(lib: Lib, anchors: seq<Anchor>, rows: seq<Row>, l: nat, k: nat, x: Row)
    requires Genuine(lib, anchors, rows, l) && k < |rows| && Altered(rows, k, x)
    requires CollisionFree(lib, Inputs(lib, rows) + Inputs(lib, rows[k := x]))
    ensures l < |rows|
    ensures var s := Verdict(lib, anchors, rows[k := x]).status;
            s.Broken? && s.firstBad == if k < l && WellFormed(lib, x) then rows[l].id else rows[k].id
  {
    hide Genuine, Verdict, Passes, WellFormed, Inputs, CollisionFree, ContentOf;
    var other, m := rows[k := x], if k < l && WellFormed(lib, x) then l else k;
    GenuineParts(lib, anchors, rows, l);
    GenuinePasses(lib, anchors, rows, l);
    BeforePasses(lib, anchors, rows, l, k, x, m, other);
    if k < l && !WellFormed(lib, x) {
      LegacyPasses(lib, anchors, other, k);
    } else {
      ChangedHistory(lib, anchors, rows, other, k, m);
    }
    FirstReported(lib, anchors, other, m);
  }

  lemma BeforePasses(
    lib: Lib, anchors: seq<Anchor>, rows: seq<Row>, l: nat, k: nat, x: Row, m: nat, other: seq<Row>)
    requires k < |rows| && l < |rows| && AllPass(lib, anchors, rows) && Altered(rows, k, x)
    requires m == if k < l && WellFormed(lib, x) then l else k
    requires forall i | 0 <= i < l :: rows[i].hash.None?
    requires other == rows[k := x]
    ensures forall i: nat | i < m :: Passes(lib, anchors, other, i)
  {
    hide Passes, WellFormed, ContentOf;
    forall i: nat | i < m ensures Passes(lib, anchors, other, i) {
      assert Passes(lib, anchors, rows, i);
      if i < k {
        assert other[..i + 1] == rows[..i + 1];
        SamePrefix(lib, anchors, other, rows, i, Gap);
      } else {
        LegacyPasses(lib, anchors, other, i);
        LegacyPasses(lib, anchors, rows, i);
      }
    }
  }

  lemma GenuineParts(lib: Lib, anchors: seq<Anchor>, rows: seq<Row>, l: nat)
    requires Genuine(lib, anchors, rows, l)
    ensures Digests(lib) && l < |rows| && (forall i | 0 <= i < l :: rows[i].hash.None?)
    ensures forall i | l <= i < |rows| :: rows[i].hash.Some?
    ensures forall i | l < i < |rows| :: rows[i].id == rows[i - 1].id + 1
  {
    hide WellFormed, Seals, Link, Hex.Encode;
    forall i: nat | l <= i < |rows| ensures rows[i].hash.Some? { assert StoredAt(lib, rows, i); }
  }

  /** A genuine log from which a row after the seal, but not the last, was deleted: Verify reports the gap after it. */
  lemma DeletedRowFound(lib: Lib, anchors: seq<Anchor>, rows: seq<Row>, l: nat, k: nat)
    requires Genuine(lib, anchors, rows, l) && l < k < |rows| - 1
    ensures Verdict(lib, anchors, rows[..k] + rows[k + 1..]).status == Broken(rows[k + 1].id, Gap)
  {
    hide Genuine, Verdict, Passes, WellFormed;
    var other := rows[..k] + rows[k + 1..];
    GenuineParts(lib, anchors, rows, l);
    GenuinePasses(lib, anchors, rows, l);
    forall i: nat | i < k ensures Passes(lib, anchors, other, i) {
      assert Passes(lib, anchors, rows, i);
      assert other[..i + 1] == rows[..i + 1];
      SamePrefix(lib, anchors, other, rows, i, Gap);
    }
    GapAt(lib, anchors, rows, l, k);
    VerdictExact(lib, anchors, other, Broken(rows[k + 1].id, Gap));
  }

  lemma GapAt(lib: Lib, anchors: seq<Anchor>, rows: seq<Row>, l: nat, k: nat)
    requires l < k < |rows| - 1 && rows[l].hash.Some?
    requires forall i | l < i < |rows| :: rows[i].id == rows[i - 1].id + 1
    ensures var other := rows[..k] + rows[k + 1..];
            other[k] == rows[k + 1] && Fails(lib, anchors, other, k, Gap)
  {
    var other := rows[..k] + rows[k + 1..];
    assert other[k] == rows[k + 1] && other[k - 1] == rows[k - 1] && other[l] == rows[l];
    assert rows[k].id == rows[k - 1].id + 1 && rows[k + 1].id == rows[k + 1 - 1].id + 1;
    assert Begun(other, k);
  }
}
