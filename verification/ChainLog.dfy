/** The audit log as it is written and walked: appending, and verifying page by page while others append. */
module ChainLog {
  import opened Base
  import opened Canonical
  import opened Chain
  import ChainAnchors
  import CanonicalWriter
  import Hex

  /** rowCanonical and chainHash. */
  method HashRow(lib: Lib, prev: bytes, r: Row) returns (h: Option<bytes>)
    ensures h == ChainHash(lib, prev, r)
  {
    hide RowValue, Text, Accepted;
    RowAccepted(r);
    var c := CanonicalWriter.CanonicalValue(RowValue(r));
    if c.None? { return None; }
    return Some(lib.sha256(Ascii(ROW_LABEL) + prev + c.value));
  }

  /** verifyState: the walk's fields, updated row by row. */
  class Verifier {
    var status: Status
    var prev: bytes
    var lastId: int
    var started: bool
    var rows: int
    var legacyRows: int
    var chainedFrom: int
    var seen: set<int>
    var legacyAnchor: int

    ghost function View(): Walk
      reads this
    {
      Walk(status, prev, lastId, started, rows, legacyRows, chainedFrom, seen, legacyAnchor)
    }

    constructor (lib: Lib)
      ensures View() == Start(lib)
    {
      status, prev, lastId, started := Intact, Genesis(lib), 0, false;
      rows, legacyRows, chainedFrom, seen, legacyAnchor := 0, 0, 0, {}, 0;
    }

    method Broke(id: int, reason: Reason)
      modifies this`status
      ensures View() == Fail(old(View()), id, reason)
    {
      status := Broken(id, reason);
    }

    method LegacyRow(lib: Lib, anchors: seq<Anchor>, r: Row)
      modifies this
      ensures View() == CheckLegacy(lib, anchors, old(View()), r)
    {
      hide WellFormed, HashInput;
      if !WellFormed(lib, r) {
        Broke(r.id, BadRow);
        return;
      }
      var h := HashRow(lib, prev, r);
      if h.None? {
        Broke(r.id, BadRow);
        return;
      }
      prev := h.value;
      legacyRows := legacyRows + 1;
      if Anchored(anchors, r.id) {
        seen := seen + {r.id};
        if legacyAnchor == 0 { legacyAnchor := r.id; }
      }
    }

    method StoredRow(lib: Lib, anchors: seq<Anchor>, r: Row)
      requires r.hash.Some?
      modifies this
      ensures View() == CheckStored(lib, anchors, old(View()), r)
    {
      hide WellFormed, HashInput, Hex.Encode, Anchored, AnchorsHold;
      var h := HashRow(lib, prev, r);
      if h.None? || Hex.Encode(h.value) != r.hash.value {
        Broke(r.id, HashMismatch);
        return;
      }
      if !WellFormed(lib, r) {
        Broke(r.id, BadRow);
        return;
      }
      prev := h.value;
      if Anchored(anchors, r.id) { seen := seen + {r.id}; }
      if !AnchorsHold(anchors, r.id, r.hash.value) { Broke(r.id, AnchorMismatch); }
    }

    /** check: one row, in the order of the source's tests. */
    method Check(lib: Lib, anchors: seq<Anchor>, r: Row) returns (ok: bool)
      requires status.Intact?
      modifies this
      ensures View() == CheckRow(lib, anchors, old(View()), r)
      ensures ok == status.Intact?
    {
      hide CheckLegacy, CheckStored, IsChainStart;
      rows := rows + 1;
      if !started && r.hash.None? {
        LegacyRow(lib, anchors, r);
      } else if !started {
        var walk := Walk(status, prev, lastId, started, rows, legacyRows, chainedFrom, seen, legacyAnchor);
        if !IsChainStart(lib, walk, r) {
          Broke(r.id, ChainStart);
        } else {
          started := true;
          chainedFrom := r.id;
          StoredRow(lib, anchors, r);
        }
      } else if r.id != lastId + 1 {
        Broke(r.id, Gap);
      } else if r.hash.None? {
        Broke(r.id, Unchained);
      } else {
        StoredRow(lib, anchors, r);
      }
      lastId := r.id;
      ok := status.Intact?;
    }

    /** checkAnchorsMissing and the last test of Verify. */
    method Close(anchors: seq<Anchor>)
      modifies this
      ensures View() == Finish(anchors, old(View()))
    {
      if status.Intact? {
        var missing := LeastMissing(anchors, seen);
        if missing != 0 {
          Broke(missing, AnchorMissing);
        } else if legacyAnchor != 0 {
          Broke(legacyAnchor, AnchorMismatch);
        }
      }
    }
  }

  // ---- Appending ----

  /** One append: the clock readings the rows get, and the event. */
  datatype Event = Event(startTs: bytes, ts: bytes, actor: bytes, action: bytes, detail: bytes)

  ghost function InsertSpec(lib: Lib, rows: seq<Row>, prev: bytes, r: Row): Option<seq<Row>> {
    match ChainHash(lib, prev, r)
    case None => None
    case Some(h) => Some(rows + [r.(hash := Some(Hex.Encode(h)))])
  }

  function LastId(rows: seq<Row>): int { if rows == [] then 0 else rows[|rows| - 1].id }

  function StartRow(lib: Lib, rows: seq<Row>, ts: bytes): Row {
    Row(LastId(rows) + 1, ts, Ascii(ACTOR_DAEMON), Ascii(ACTION_CHAIN_START),
        lib.marshalStart(Legacy(LastId(rows), |rows|)), None)
  }

  predicate AnyStored(rows: seq<Row>) { exists i :: 0 <= i < |rows| && rows[i].hash.Some? }
  predicate AllHashable(rows: seq<Row>) { forall i | 0 <= i < |rows| :: Canonicalizable(rows[i]) }

  /** startChain: refused when a stored row exists or a legacy row cannot be hashed. */
  ghost function StartSpec(lib: Lib, rows: seq<Row>, ts: bytes): Option<seq<Row>> {
    if AnyStored(rows) || !AllHashable(rows) then None
    else InsertSpec(lib, rows, Link(lib, rows), StartRow(lib, rows, ts))
  }

  /** The event's row after the head of a table whose chain has started. */
  ghost function AfterHead(lib: Lib, t: seq<Row>, e: Event): Option<seq<Row>> {
    if t == [] || t[|t| - 1].hash.None? then None
    else match Hex.DecodeHash(t[|t| - 1].hash.value)
      case None => None
      case Some(prev) => InsertSpec(lib, t, prev, Row(LastId(t) + 1, e.ts, e.actor, e.action, e.detail, None))
  }

  /**
   Append, with marshalDetail and appendChained: an event without an actor or action is refused; else
   start the chain if the head has no stored hash, then add the event's row after the head.
   */
  ghost function AppendSpec(lib: Lib, rows: seq<Row>, e: Event): Option<seq<Row>> {
    var started := if rows == [] || rows[|rows| - 1].hash.None? then StartSpec(lib, rows, e.startTs) else Some(rows);
    if e.actor == [] || e.action == [] || started.None? then None else AfterHead(lib, started.value, e)
  }

  /** Rows a query selects: after < id <= head, in id order. */
  function Select(rows: seq<Row>, after: int, head: int): seq<Row> {
    if rows == [] then []
    else
      var init, r := Select(rows[..|rows| - 1], after, head), rows[|rows| - 1];
      if after < r.id <= head then init + [r] else init
  }

  function Take(rows: seq<Row>, n: nat): seq<Row> { if |rows| <= n then rows else rows[..n] }

  const LEAST_ID := -0x8000_0000_0000_0000

  predicate IdsInRange(rows: seq<Row>) { forall i | 0 <= i < |rows| :: rows[i].id > LEAST_ID }

  lemma {:induction false} SelectConcat(a: seq<Row>, b: seq<Row>, after: int, head: int)
    ensures Select(a + b, after, head) == Select(a, after, head) + Select(b, after, head)
    decreases |b|
  {
    if b == [] {
      assert a + b == a;
    } else {
      var init, r := b[..|b| - 1], b[|b| - 1];
      assert (a + b)[..|a + b| - 1] == a + init;
      SelectConcat(a, init, after, head);
    }
  }

  lemma {:induction false} SelectAll(rows: seq<Row>, after: int, head: int)
    requires forall j | 0 <= j < |rows| :: after < rows[j].id <= head
    ensures Select(rows, after, head) == rows
  {
    if rows != [] { SelectAll(rows[..|rows| - 1], after, head); }
  }

  lemma {:induction false} SelectNone(rows: seq<Row>, after: int, head: int)
    requires forall j | 0 <= j < |rows| :: !(after < rows[j].id <= head)
    ensures Select(rows, after, head) == []
  {
    if rows != [] { SelectNone(rows[..|rows| - 1], after, head); }
  }

  /** Where the ids of an ordered table lie relative to a page's bounds. */
  lemma Regions(rows: seq<Row>, i: nat, n: nat, after: int)
    requires Increasing(rows) && IdsInRange(rows) && i <= n <= |rows| && n > 0
    requires if i == 0 then after == LEAST_ID else after == rows[i - 1].id
    ensures forall j | 0 <= j < i :: rows[j].id <= after
    ensures forall j | i <= j < n :: after < rows[j].id <= rows[n - 1].id
    ensures forall j | n <= j < |rows| :: rows[n - 1].id < rows[j].id
  {
    forall j | 0 <= j < i ensures rows[j].id <= after {
      if j < i - 1 { assert rows[j].id < rows[i - 1].id; }
    }
    forall j | i <= j < n ensures after < rows[j].id <= rows[n - 1].id {
      if i > 0 { assert rows[i - 1].id < rows[j].id; }
      if j < n - 1 { assert rows[j].id < rows[n - 1].id; }
    }
  }

  predicate AllOutside(rows: seq<Row>, after: int, head: int) {
    forall j | 0 <= j < |rows| :: !(after < rows[j].id <= head)
  }

  predicate AllInside(rows: seq<Row>, after: int, head: int) {
    forall j | 0 <= j < |rows| :: after < rows[j].id <= head
  }

  lemma SelectMiddle(low: seq<Row>, mid: seq<Row>, high: seq<Row>, after: int, head: int)
    requires AllOutside(low, after, head) && AllInside(mid, after, head) && AllOutside(high, after, head)
    ensures Select(low + (mid + high), after, head) == mid
  {
    SelectNone(low, after, head);
    SelectAll(mid, after, head);
    SelectNone(high, after, head);
    hide Select, AllOutside, AllInside;
    SelectConcat(low, mid + high, after, head);
    SelectConcat(mid, high, after, head);
  }

  lemma RegionSlices(rows: seq<Row>, i: nat, n: nat, after: int)
    requires Increasing(rows) && IdsInRange(rows) && i <= n <= |rows| && n > 0
    requires if i == 0 then after == LEAST_ID else after == rows[i - 1].id
    ensures var head := rows[n - 1].id;
            && AllOutside(rows[..i], after, head) && AllInside(rows[i..n], after, head)
            && AllOutside(rows[n..], after, head)
  {
    Regions(rows, i, n, after);
    hide Increasing, IdsInRange;
  }

  lemma SelectSuffix(rows: seq<Row>, i: nat, n: nat, after: int)
    requires Increasing(rows) && IdsInRange(rows) && i <= n <= |rows| && n > 0
    requires if i == 0 then after == LEAST_ID else after == rows[i - 1].id
    ensures Select(rows, after, rows[n - 1].id) == rows[i..n]
  {
    hide Select, Increasing, IdsInRange, AllInside, AllOutside;
    RegionSlices(rows, i, n, after);
    SelectMiddle(rows[..i], rows[i..n], rows[n..], after, rows[n - 1].id);
    assert rows == rows[..i] + (rows[i..n] + rows[n..]);
  }

  class Log {
    var rows: seq<Row>

    ghost predicate Ordered()
      reads this
    {
      Increasing(rows) && IdsInRange(rows)
    }

    /** The virtual chain over rows without a stored hash; None when one of them cannot be hashed. */
    static method ChainLegacy(lib: Lib, table: seq<Row>) returns (prev: Option<bytes>)
      ensures prev == if AllHashable(table) then Some(Link(lib, table)) else None
    {
      hide Link, HashInput, Genesis;
      assert Link(lib, []) == Genesis(lib) by { LinkNothing(lib); }
      var p := Genesis(lib);
      for i := 0 to |table|
        invariant AllHashable(table[..i])
        invariant p == Link(lib, table[..i])
      {
        var h := HashRow(lib, p, table[i]);
        if h.None? {
          assert !Canonicalizable(table[i]);
          return None;
        }
        LinkSnoc(lib, table[..i], table[i]);
        assert table[..i + 1] == table[..i] + [table[i]];
        p := h.value;
      }
      assert table[..|table|] == table;
      return Some(p);
    }

    static method CountStored(table: seq<Row>) returns (stored: nat)
      ensures stored > 0 <==> AnyStored(table)
    {
      stored := 0;
      for i := 0 to |table|
        invariant stored > 0 <==> AnyStored(table[..i])
      {
        assert table[..i + 1] == table[..i] + [table[i]];
        if AnyStored(table[..i + 1]) != AnyStored(table[..i]) { assert table[..i + 1][i].hash.Some?; }
        if table[i].hash.Some? {
          assert table[..i + 1][i].hash.Some?;
          stored := stored + 1;
        } else {
          assert forall j | 0 <= j < i :: table[..i][j] == table[..i + 1][j];
        }
      }
      assert table[..|table|] == table;
    }

    static method InsertRow(lib: Lib, table: seq<Row>, prev: bytes, r: Row) returns (t: Option<seq<Row>>)
      ensures t == InsertSpec(lib, table, prev, r)
    {
      hide HashInput, Hex.Encode;
      var h := HashRow(lib, prev, r);
      if h.None? { return None; }
      return Some(table + [r.(hash := Some(Hex.Encode(h.value)))]);
    }

    static method StartChain(lib: Lib, table: seq<Row>, ts: bytes) returns (t: Option<seq<Row>>)
      ensures t == StartSpec(lib, table, ts)
    {
      hide Link, InsertSpec;
      var stored := CountStored(table);
      if stored > 0 { return None; }
      var prev := ChainLegacy(lib, table);
      if prev.None? { return None; }
      t := InsertRow(lib, table, prev.value, StartRow(lib, table, ts));
    }

    /** Append in one transaction: all of its rows or none, also when the database refuses the commit. */
    method Append(lib: Lib, e: Event, commits: bool) returns (ok: bool)
      modifies this
      ensures ok == (commits && AppendSpec(lib, old(rows), e).Some?)
      ensures rows == if ok then AppendSpec(lib, old(rows), e).value else old(rows)
    {
      hide StartSpec, InsertSpec, Hex.DecodeHash;
      if e.actor == [] || e.action == [] { return false; }
      var table := rows;
      if table == [] || table[|table| - 1].hash.None? {
        var t := StartChain(lib, table, e.startTs);
        if t.None? { return false; }
        table := t.value;
        if table == [] || table[|table| - 1].hash.None? { return false; }
      }
      var prev := Hex.DecodeHash(table[|table| - 1].hash.value);
      if prev.None? { return false; }
      var t := InsertRow(lib, table, prev.value, Row(LastId(table) + 1, e.ts, e.actor, e.action, e.detail, None));
      if t.None? || !commits { return false; }
      rows := t.value;
      return true;
    }

    /** Other writers append between two pages; the triggers of the table allow nothing else. */
    method OthersAppend()
      requires Ordered()
      modifies this
      ensures Ordered() && old(rows) <= rows
    {
      var more: seq<Row> :| Increasing(rows + more) && IdsInRange(rows + more);
      rows := rows + more;
    }

    /** readPage: at most n rows with after < id <= head, in order. */
    method ReadPage(after: int, head: int, n: nat) returns (page: seq<Row>)
      ensures page == Take(Select(rows, after, head), n)
    {
      page := [];
      for i := 0 to |rows|
        invariant page == Take(Select(rows[..i], after, head), n)
      {
        assert rows[..i + 1][..i] == rows[..i];
        if after < rows[i].id <= head && |page| < n { page := page + [rows[i]]; }
      }
      assert rows[..|rows|] == rows;
    }

    /** Verify: the verdict is that of the log at the start, for any page size and whatever is appended meanwhile. */
    method Verify(lib: Lib, anchors: seq<Anchor>, pageSize: nat) returns (res: Result)
      requires Ordered() && pageSize > 0
      modifies this
      ensures Ordered() && old(rows) <= rows
      ensures res == Verdict(lib, anchors, old(rows))
    {
      hide CheckRow, WalkRows, Finish, Select, Increasing, IdsInRange, Take, Start;
      ghost var all := rows;
      var st := new Verifier(lib);
      ChainAnchors.WalkNothing(lib, anchors);
      if rows == [] {
        st.Close(anchors);
        return Result(st.status, st.rows, st.legacyRows, st.chainedFrom, None);
      }
      var head := HeadOf(rows);
      var headId := rows[|rows| - 1].id;
      var after := LEAST_ID;
      ghost var i := 0;
      assert all[..0] == [];
      assert st.status.Intact? by { StartIntact(lib); }
      while true
        invariant Ordered() && all <= rows && 0 <= i <= |all| && all != [] && headId == all[|all| - 1].id
        invariant fresh(st) && st.View() == WalkRows(lib, anchors, all[..i]) && st.status.Intact?
        invariant if i == 0 then after == LEAST_ID else after == all[i - 1].id
        decreases |all| - i
      {
        OthersAppend();
        var page := ReadPage(after, headId, pageSize);
        PageIsSlice(rows, all, i, after, pageSize);
        var ok := WalkPage(lib, anchors, st, page, all, i);
        if !ok { return Result(st.status, st.rows, st.legacyRows, st.chainedFrom, head); }
        i := i + |page|;
        if |page| < pageSize { break; }
        after := page[|page| - 1].id;
      }
      assert all[..i] == all;
      st.Close(anchors);
      return Result(st.status, st.rows, st.legacyRows, st.chainedFrom, head);
    }
  }

  /** Check one page's rows; on a failure the walk's state is already the final one. */
  method WalkPage(lib: Lib, anchors: seq<Anchor>, st: Verifier, page: seq<Row>, ghost all: seq<Row>, ghost i: nat)
    returns (ok: bool)
    requires i + |page| <= |all| && page == all[i..i + |page|]
    requires st.View() == WalkRows(lib, anchors, all[..i]) && st.status.Intact?
    modifies st
    ensures ok ==> st.View() == WalkRows(lib, anchors, all[..i + |page|]) && st.status.Intact?
    ensures !ok ==> st.View() == Finish(anchors, WalkRows(lib, anchors, all))
  {
    hide CheckRow, WalkRows, Finish;
    var j := 0;
    while j < |page|
      invariant 0 <= j <= |page|
      invariant st.View() == WalkRows(lib, anchors, all[..i + j]) && st.status.Intact?
    {
      assert all[..i + j + 1] == all[..i + j] + [page[j]];
      ChainAnchors.WalkSnoc(lib, anchors, all[..i + j], page[j]);
      ok := st.Check(lib, anchors, page[j]);
      if !ok {
        BrokenStays(lib, anchors, all, i + j + 1);
        return;
      }
      j := j + 1;
    }
    return true;
  }

  lemma StartIntact(lib: Lib)
    ensures Start(lib).status.Intact?
  {
  }

  lemma LinkNothing(lib: Lib)
    ensures Link(lib, []) == Genesis(lib)
  {
  }

  /** A page read mid-walk is the next slice of the log as it was at the start. */
  lemma PageIsSlice(now: seq<Row>, all: seq<Row>, i: nat, after: int, n: nat)
    requires Increasing(now) && IdsInRange(now) && all <= now && all != [] && i <= |all|
    requires if i == 0 then after == LEAST_ID else after == all[i - 1].id
    ensures var page := Take(Select(now, after, all[|all| - 1].id), n);
      && i + |page| <= |all| && page == all[i..i + |page|] && (|page| < n ==> i + |page| == |all|)
  {
    hide Select;
    SelectSuffix(now, i, |all|, after);
    assert now[i..|all|] == all[i..];
  }

  lemma {:induction false} BrokenStays(lib: Lib, anchors: seq<Anchor>, rows: seq<Row>, n: nat)
    requires n <= |rows| && !WalkRows(lib, anchors, rows[..n]).status.Intact?
    ensures WalkRows(lib, anchors, rows) == WalkRows(lib, anchors, rows[..n])
    ensures Finish(anchors, WalkRows(lib, anchors, rows)) == WalkRows(lib, anchors, rows[..n])
    decreases |rows|
  {
    hide CheckRow, WalkRows;
    if n == |rows| {
      assert rows[..n] == rows;
    } else {
      var init, r := rows[..|rows| - 1], rows[|rows| - 1];
      assert init[..n] == rows[..n];
      BrokenStays(lib, anchors, init, n);
      assert rows == init + [r];
      ChainAnchors.WalkSnoc(lib, anchors, init, r);
    }
  }
}
