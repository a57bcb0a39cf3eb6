/**
 The audit log's hash chain. A row's hash covers the row and the previous
 row's hash; rows older than the chain ("legacy", without a stored hash) are
 chained virtually and sealed by the audit.chain_start row.
 */
module Chain {
  import opened Base
  import opened Json
  import opened Canonical
  import opened Documents
  import Decimal
  import Hex
  import Utf8

  /** One audit_events row as stored. The texts are byte strings: the store does not check their encoding. */
  datatype Row = Row(id: int, ts: bytes, actor: bytes, action: bytes, detail: bytes, hash: Option<string>)

  /** What the chain uses of the libraries: SHA-256, JSON and time checks, and the detail of audit.chain_start. */
  datatype Lib = Lib(
    sha256: bytes -> bytes,
    jsonValid: bytes -> bool,
    timeValid: bytes -> bool,
    startDetail: bytes -> Option<Legacy>,
    marshalStart: Legacy -> bytes)

  /** The detail of audit.chain_start: the last legacy id and how many legacy rows there are. */
  datatype Legacy = Legacy(lastId: int, rows: int)

  ghost predicate Digests(lib: Lib) { forall x: bytes :: |lib.sha256(x)| == 32 }

  function Ascii(s: string): bytes { Utf8.Encode(s) }

  const GENESIS_LABEL := "dorylinae-audit-genesis-v1"
  const ROW_LABEL := "dorylinae-audit-v1\n"
  const ACTION_CHAIN_START := "audit.chain_start"
  const ACTOR_DAEMON := "daemon"

  function Genesis(lib: Lib): bytes { lib.sha256(Ascii(GENESIS_LABEL)) }

  function RowValue(r: Row): Value {
    Obj(map["action" := Str(Utf8.Runes(r.action)), "actor" := Str(Utf8.Runes(r.actor)),
            "detail" := Str(Utf8.Runes(r.detail)),
            "id" := Num(Decimal.FormatInt(r.id)), "ts" := Str(Utf8.Runes(r.ts))])
  }

  /** rowCanonical, for rows that have one. */
  ghost function RowBytes(r: Row): bytes { Utf8.Encode(Text(RowValue(r))) }

  /** rowCanonical fails exactly when the id is out of the canonical integer range. */
  predicate Canonicalizable(r: Row) { -MAX_SAFE_INT < r.id < MAX_SAFE_INT }

  ghost function HashInput(prev: bytes, r: Row): bytes { Ascii(ROW_LABEL) + prev + RowBytes(r) }

  /** chainHash. */
  ghost function ChainHash(lib: Lib, prev: bytes, r: Row): Option<bytes> {
    if Canonicalizable(r) then Some(lib.sha256(HashInput(prev, r))) else None
  }

  predicate WellFormed(lib: Lib, r: Row) {
    && lib.jsonValid(r.detail) && lib.timeValid(r.ts)
    && Utf8.Valid(r.ts) && Utf8.Valid(r.actor) && Utf8.Valid(r.action) && Utf8.Valid(r.detail)
  }

  /** The chain value after a sequence of rows. */
  ghost function Link(lib: Lib, rows: seq<Row>): bytes {
    if rows == [] then Genesis(lib)
    else lib.sha256(HashInput(Link(lib, rows[..|rows| - 1]), rows[|rows| - 1]))
  }

  lemma LinkSnoc(lib: Lib, rows: seq<Row>, r: Row)
    ensures Link(lib, rows + [r]) == lib.sha256(HashInput(Link(lib, rows), r))
  {
    hide HashInput;
    assert (rows + [r])[..|rows|] == rows;
  }

  // ---- Row canonical forms ----

  lemma RowValueParts(r: Row)
    ensures RowValue(r).Obj?
    ensures var m := RowValue(r).m;
      && m.Keys == {"action", "actor", "detail", "id", "ts"}
      && m["action"] == Str(Utf8.Runes(r.action)) && m["actor"] == Str(Utf8.Runes(r.actor))
      && m["detail"] == Str(Utf8.Runes(r.detail)) && m["id"] == Num(Decimal.FormatInt(r.id))
      && m["ts"] == Str(Utf8.Runes(r.ts))
  {
    hide Utf8.Runes, Decimal.FormatInt;
    assert |"action"| == 6 && |"actor"| == 5 && |"detail"| == 6 && |"id"| == 2 && |"ts"| == 2;
    assert "action"[0] == 'a' && "detail"[0] == 'd' && "id"[0] == 'i' && "ts"[0] == 't';
  }

  lemma RowAccepted(r: Row)
    ensures Accepted(RowValue(r)) <==> Canonicalizable(r)
  {
    hide RowValue, Utf8.Runes, Decimal.FormatInt;
    RowValueParts(r);
    Decimal.IntRoundTrip(r.id);
    var m := RowValue(r).m;
    assert Accepted(m["id"]) <==> Canonicalizable(r);
    assert forall k | k in m :: k == "id" || m[k].Str?;
  }

  /** The fields a hash commits to. */
  datatype Content = Content(id: int, ts: bytes, actor: bytes, action: bytes, detail: bytes)

  function ContentOf(r: Row): Content { Content(r.id, r.ts, r.actor, r.action, r.detail) }

  predicate TextsValid(r: Row) {
    Utf8.Valid(r.ts) && Utf8.Valid(r.actor) && Utf8.Valid(r.action) && Utf8.Valid(r.detail)
  }

  /** The canonical form of a row fixes all five fields, once its texts are valid UTF-8. */
  lemma RowBytesInjective(r: Row, s: Row)
    requires Canonicalizable(r) && Canonicalizable(s) && TextsValid(r) && TextsValid(s)
    requires RowBytes(r) == RowBytes(s)
    ensures ContentOf(r) == ContentOf(s)
  {
    hide RowValue, Utf8.Runes, Utf8.Valid, Decimal.FormatInt, Text, Accepted;
    RowAccepted(r);
    RowAccepted(s);
    CanonicalBytesInjective(RowValue(r), RowValue(s));
    RowValueParts(r);
    RowValueParts(s);
    Decimal.IntRoundTrip(r.id);
    Decimal.IntRoundTrip(s.id);
    Utf8.RunesInjective(r.ts, s.ts);
    Utf8.RunesInjective(r.actor, s.actor);
    Utf8.RunesInjective(r.action, s.action);
    Utf8.RunesInjective(r.detail, s.detail);
  }

  // ---- Verification, row by row ----

  datatype Reason = Gap | Unchained | ChainStart | HashMismatch | BadRow | AnchorMismatch | AnchorMissing

  datatype Status = Intact | Broken(firstBad: int, reason: Reason)

  datatype Anchor = Anchor(id: int, hash: string)

  /** What a walk carries from row to row. */
  datatype Walk = Walk(
    status: Status, prev: bytes, lastId: int, started: bool, rows: int, legacyRows: int, chainedFrom: int,
    seen: set<int>, legacyAnchor: int)

  function Start(lib: Lib): Walk { Walk(Intact, Genesis(lib), 0, false, 0, 0, 0, {}, 0) }

  predicate Anchored(anchors: seq<Anchor>, id: int) { exists i :: 0 <= i < |anchors| && anchors[i].id == id }

  predicate AnchorsHold(anchors: seq<Anchor>, id: int, hash: string) {
    forall i | 0 <= i < |anchors| && anchors[i].id == id :: anchors[i].hash == hash
  }

  /** isChainStart: the first stored row seals the legacy rows before it. */
  predicate IsChainStart(lib: Lib, st: Walk, r: Row) {
    && r.action == Ascii(ACTION_CHAIN_START) && r.actor == Ascii(ACTOR_DAEMON)
    && lib.startDetail(r.detail) == Some(Legacy(if st.legacyRows > 0 then st.lastId else 0, st.legacyRows))
  }

  function Fail(st: Walk, id: int, reason: Reason): Walk { st.(status := Broken(id, reason)) }

  ghost function CheckLegacy(lib: Lib, anchors: seq<Anchor>, st: Walk, r: Row): Walk {
    if !WellFormed(lib, r) || !Canonicalizable(r) then Fail(st, r.id, BadRow)
    else
      var anchored := Anchored(anchors, r.id);
      st.(prev := lib.sha256(HashInput(st.prev, r)), legacyRows := st.legacyRows + 1,
          seen := if anchored then st.seen + {r.id} else st.seen,
          legacyAnchor := if anchored && st.legacyAnchor == 0 then r.id else st.legacyAnchor)
  }

  ghost function CheckStored(lib: Lib, anchors: seq<Anchor>, st: Walk, r: Row): Walk
    requires r.hash.Some?
  {
    if !Canonicalizable(r) || Hex.Encode(lib.sha256(HashInput(st.prev, r))) != r.hash.value then
      Fail(st, r.id, HashMismatch)
    else if !WellFormed(lib, r) then Fail(st, r.id, BadRow)
    else
      var next := st.(prev := lib.sha256(HashInput(st.prev, r)),
                      seen := if Anchored(anchors, r.id) then st.seen + {r.id} else st.seen);
      if AnchorsHold(anchors, r.id, r.hash.value) then next else Fail(next, r.id, AnchorMismatch)
  }

  /** verifyState.check. */
  ghost function CheckRow(lib: Lib, anchors: seq<Anchor>, before: Walk, r: Row): Walk {
    var st := before.(rows := before.rows + 1);
    var done :=
      if !st.started && r.hash.None? then CheckLegacy(lib, anchors, st, r)
      else if !st.started then
        if !IsChainStart(lib, st, r) then Fail(st, r.id, ChainStart)
        else CheckStored(lib, anchors, st.(started := true, chainedFrom := r.id), r)
      else if r.id != st.lastId + 1 then Fail(st, r.id, Gap)
      else if r.hash.None? then Fail(st, r.id, Unchained)
      else CheckStored(lib, anchors, st, r);
    done.(lastId := r.id)
  }

  /** The walk over a sequence of rows stops at the first failure. */
  ghost function WalkRows(lib: Lib, anchors: seq<Anchor>, rows: seq<Row>): Walk {
    if rows == [] then Start(lib)
    else
      var st := WalkRows(lib, anchors, rows[..|rows| - 1]);
      if st.status.Intact? then CheckRow(lib, anchors, st, rows[|rows| - 1]) else st
  }

  /** The least id among those anchors not seen, 0 when all were (checkAnchorsMissing's own sentinel). */
  function LeastMissing(anchors: seq<Anchor>, seen: set<int>): int {
    if anchors == [] then 0
    else
      var id, rest := anchors[|anchors| - 1].id, LeastMissing(anchors[..|anchors| - 1], seen);
      if id !in seen && (rest == 0 || id < rest) then id else rest
  }

  function Finish(anchors: seq<Anchor>, st: Walk): Walk {
    if !st.status.Intact? then st
    else
      var missing := LeastMissing(anchors, st.seen);
      if missing != 0 then Fail(st, missing, AnchorMissing)
      else if st.legacyAnchor != 0 then Fail(st, st.legacyAnchor, AnchorMismatch)
      else st
  }

  datatype Head = Head(id: int, hash: string, ts: bytes)

  datatype Result = Result(status: Status, rows: int, legacyRows: int, chainedFrom: int, head: Option<Head>)

  function HeadOf(rows: seq<Row>): Option<Head> {
    if rows == [] then None
    else
      var r := rows[|rows| - 1];
      Some(Head(r.id, if r.hash.Some? then r.hash.value else "", r.ts))
  }

  /** What Verify reports about a log. */
  ghost function Verdict(lib: Lib, anchors: seq<Anchor>, rows: seq<Row>): Result {
    var st := Finish(anchors, WalkRows(lib, anchors, rows));
    Result(st.status, st.rows, st.legacyRows, st.chainedFrom, HeadOf(rows))
  }

  /** Rows come ordered by their primary key. */
  predicate Increasing(rows: seq<Row>) { forall i, j | 0 <= i < j < |rows| :: rows[i].id < rows[j].id }
}
