/**
 The audit rows of fetch operations: at most 60 rows a minute are written for a
 grant, the rest are added up and written as summaries. The measure of
 correctness is the log that would have been written without any limit.
 */
module FetchAudit {
  import opened Base
  import opened FixedWindow

  const ROWS_PER_MINUTE := 60
  const MINUTE := 60_000

  datatype Row =
    | Fetch(grant: string, peer: string, op: string, bytes: int, result: string)
    | Summary(grant: string, peer: string, ops: int, bytes: int, errors: int)

  datatype Win = Win(start: int, rows: int, grant: string, peer: string, ops: int, bytes: int, errors: int)

  /** Operations of a known grant are counted by grant, the others by peer. */
  function KeyOf(grant: string, peer: string): string { if grant == "" then "peer:" + peer else grant }

  // ---- Tallies ----

  datatype Tally = Tally(ops: int, bytes: int, errors: int)

  const NOTHING := Tally(0, 0, 0)

  function Plus(a: Tally, b: Tally): Tally { Tally(a.ops + b.ops, a.bytes + b.bytes, a.errors + b.errors) }

  function One(row: Row): Tally {
    match row
    case Fetch(_, _, _, bytes, result) => Tally(1, bytes, if result == "ok" then 0 else 1)
    case Summary(_, _, ops, bytes, errors) => Tally(ops, bytes, errors)
  }

  /** What rows say about the operations counted under key. */
  function Of(rows: seq<Row>, key: string): Tally {
    if rows == [] then NOTHING
    else
      var last := rows[|rows| - 1];
      var init := Of(rows[..|rows| - 1], key);
      if KeyOf(last.grant, last.peer) == key then Plus(init, One(last)) else init
  }

  function Suppressed(w: Win): Tally { Tally(w.ops, w.bytes, w.errors) }

  function Pending(wins: map<string, Win>, key: string): Tally {
    if key in wins then Suppressed(wins[key]) else NOTHING
  }

  lemma OfSnoc(rows: seq<Row>, row: Row, key: string)
    ensures Of(rows + [row], key)
         == if KeyOf(row.grant, row.peer) == key then Plus(Of(rows, key), One(row)) else Of(rows, key)
  {
    assert (rows + [row])[..|rows|] == rows;
  }

  /** Everything recorded is in the rows written or still pending, key by key. */
  ghost predicate Conserved(recorded: seq<Row>, emitted: seq<Row>, wins: map<string, Win>) {
    forall key :: Of(recorded, key) == Plus(Of(emitted, key), Pending(wins, key))
  }

  /** A window belongs to its key, counts within the limit, and suppresses no error it does not count. */
  predicate Fitting(key: string, w: Win) {
    && KeyOf(w.grant, w.peer) == key && 0 <= w.rows <= ROWS_PER_MINUTE
    && 0 <= w.errors <= w.ops && (w.ops == 0 ==> w.bytes == 0)
  }

  predicate AllFitting(wins: map<string, Win>) { forall key | key in wins :: Fitting(key, wins[key]) }

  /** takeSummary: what is suppressed leaves the window for a row, if there is anything. */
  function Taken(w: Win): (rows: seq<Row>)
    ensures |rows| <= 1
  {
    if w.ops == 0 then [] else [Summary(w.grant, w.peer, w.ops, w.bytes, w.errors)]
  }

  lemma TakingAt(emitted: seq<Row>, key: string, w: Win, k: string)
    requires Fitting(key, w)
    ensures Of(emitted + Taken(w), k) == if k == key then Plus(Of(emitted, k), Suppressed(w)) else Of(emitted, k)
  {
    hide Of;
    if w.ops == 0 { assert emitted + Taken(w) == emitted; } else { OfSnoc(emitted, Taken(w)[0], k); }
  }

  lemma TakingConserves(
    recorded: seq<Row>, emitted: seq<Row>, wins: map<string, Win>, key: string, after: map<string, Win>)
    requires Conserved(recorded, emitted, wins) && key in wins && Fitting(key, wins[key])
    requires Pending(after, key) == NOTHING && forall k :: k != key ==> Pending(after, k) == Pending(wins, k)
    ensures Conserved(recorded, emitted + Taken(wins[key]), after)
  {
    hide Of, Taken, Fitting;
    var w := wins[key];
    forall k ensures Of(recorded, k) == Plus(Of(emitted + Taken(w), k), Pending(after, k)) {
      TakingAt(emitted, key, w, k);
      assert Of(recorded, k) == Plus(Of(emitted, k), Pending(wins, k));
    }
  }

  /** The window's start and row count. */
  function OpenOf(wins: map<string, Win>, key: string): Option<(int, int)> {
    if key in wins then Some((wins[key].start, wins[key].rows)) else None
  }

  /** The summary that must be written before an operation at now. */
  function Due(wins: map<string, Win>, key: string, now: int): seq<Row> {
    if key in wins && now - wins[key].start >= MINUTE then Taken(wins[key]) else []
  }

  function Restarted(wins: map<string, Win>, key: string, now: int): map<string, Win>
    requires key in wins
  {
    wins[key := Win(now, 0, wins[key].grant, wins[key].peer, 0, 0, 0)]
  }

  lemma RestartedFits(wins: map<string, Win>, key: string, now: int)
    requires key in wins && AllFitting(wins)
    ensures AllFitting(Restarted(wins, key, now))
    ensures Pending(Restarted(wins, key, now), key) == NOTHING
    ensures forall k :: k != key ==> Pending(Restarted(wins, key, now), k) == Pending(wins, k)
  {
    hide KeyOf;
    assert Fitting(key, wins[key]);
  }

  lemma RowConserves(recorded: seq<Row>, emitted: seq<Row>, wins: map<string, Win>, row: Row, after: map<string, Win>)
    requires Conserved(recorded, emitted, wins)
    requires forall k :: Pending(after, k) == Pending(wins, k)
    ensures Conserved(recorded + [row], emitted + [row], after)
  {
    hide Of, KeyOf, One, Pending;
    forall k ensures Of(recorded + [row], k) == Plus(Of(emitted + [row], k), Pending(after, k)) {
      OfSnoc(recorded, row, k);
      OfSnoc(emitted, row, k);
    }
  }

  lemma SuppressConserves(recorded: seq<Row>, emitted: seq<Row>, wins: map<string, Win>, row: Row, w: Win)
    requires Conserved(recorded, emitted, wins)
    requires var key := KeyOf(row.grant, row.peer);
             key in wins && Suppressed(w) == Plus(Suppressed(wins[key]), One(row))
    ensures Conserved(recorded + [row], emitted, wins[KeyOf(row.grant, row.peer) := w])
  {
    var key := KeyOf(row.grant, row.peer);
    forall k ensures Of(recorded + [row], k) == Plus(Of(emitted, k), Pending(wins[key := w], k)) {
      OfSnoc(recorded, row, k);
    }
  }

  /** fetchAudit. `recorded` is the log without limits. */
  class Audit {
    var wins: map<string, Win>
    var emitted: seq<Row>
    ghost var recorded: seq<Row>

    ghost predicate Valid()
      reads this
    {
      Conserved(recorded, emitted, wins) && AllFitting(wins)
    }

    constructor ()
      ensures Valid() && emitted == [] && recorded == [] && wins == map[]
    {
      wins, emitted, recorded := map[], [], [];
    }

    /** record: one operation is logged, or counted when its window has its rows. */
    method Record(now: int, grant: string, peer: string, op: string, bytes: int, result: string)
      requires Valid()
      modifies this
      ensures Valid() && recorded == old(recorded) + [Fetch(grant, peer, op, bytes, result)]
      ensures var key, row := KeyOf(grant, peer), Fetch(grant, peer, op, bytes, result);
              var w := Current(OpenOf(old(wins), key), now, 60_000);
              && emitted == old(emitted) + Due(old(wins), key, now) + (if w.1 < 60 then [row] else [])
              && OpenOf(wins, key) == Some(if w.1 < 60 then (w.0, w.1 + 1) else w)
      ensures wins - {KeyOf(grant, peer)} == old(wins) - {KeyOf(grant, peer)}
    {
      var key := KeyOf(grant, peer);
      var row := Fetch(grant, peer, op, bytes, result);
      hide Conserved, Taken, KeyOf;
      if key !in wins { Open(key, Win(now, 0, grant, peer, 0, 0, 0)); }
      if now - wins[key].start >= MINUTE { Renew(key, now); }
      var w := wins[key];
      if w.rows < ROWS_PER_MINUTE {
        RowConserves(recorded, emitted, wins, row, wins[key := w.(rows := w.rows + 1)]);
        wins := wins[key := w.(rows := w.rows + 1)];
        emitted := emitted + [row];
      } else {
        var more := w.(ops := w.ops + 1, bytes := w.bytes + bytes,
                       errors := if result != "ok" then w.errors + 1 else w.errors);
        SuppressConserves(recorded, emitted, wins, row, more);
        wins := wins[key := more];
      }
      recorded := recorded + [row];
    }

    method Open(key: string, w: Win)
      requires Valid() && key !in wins && Fitting(key, w) && Suppressed(w) == NOTHING
      modifies this`wins
      ensures Valid() && wins == old(wins)[key := w]
    {
      assert forall k :: Pending(wins[key := w], k) == Pending(wins, k);
      wins := wins[key := w];
    }

    /** A window a minute old hands over its summary and starts again. */
    method Renew(key: string, now: int)
      requires Valid() && key in wins
      modifies this`wins, this`emitted
      ensures Valid() && wins == Restarted(old(wins), key, now) && emitted == old(emitted) + Taken(old(wins)[key])
    {
      hide Conserved, Fitting, Taken;
      var w := wins[key];
      var after := Restarted(wins, key, now);
      RestartedFits(wins, key, now);
      TakingConserves(recorded, emitted, wins, key, after);
      emitted := emitted + Taken(w);
      wins := after;
    }

    method DropOne(key: string)
      requires Valid() && key in wins
      modifies this`wins, this`emitted
      ensures Valid() && wins == old(wins) - {key} && emitted == old(emitted) + Taken(old(wins)[key])
    {
      hide Conserved, Fitting, Taken;
      TakingConserves(recorded, emitted, wins, key, wins - {key});
      emitted := emitted + Taken(wins[key]);
      wins := wins - {key};
    }

    /** The loop of flush and flushAll over the windows, in any order: each is emitted and dropped. */
    method Drop(keys: set<string>)
      requires Valid() && keys <= wins.Keys
      modifies this`wins, this`emitted
      ensures Valid() && wins == old(wins) - keys && old(emitted) <= emitted
    {
      hide Conserved, AllFitting, Taken;
      var todo := keys;
      while todo != {}
        invariant Valid() && todo <= wins.Keys == old(wins).Keys - (keys - todo) && old(emitted) <= emitted
        invariant forall k | k in wins :: wins[k] == old(wins)[k]
      {
        var key :| key in todo;
        DropOne(key);
        todo := todo - {key};
      }
    }

    /** flush: windows at least a minute old. */
    method Flush(now: int)
      requires Valid()
      modifies this`wins, this`emitted
      ensures Valid() && old(emitted) <= emitted
      ensures wins == map k | k in old(wins) && now - old(wins)[k].start < MINUTE :: old(wins)[k]
    {
      var aged := set k | k in wins && now - wins[k].start >= MINUTE;
      Drop(aged);
    }

    /** flushAll: nothing is pending afterwards, so the rows say exactly what the unlimited log would. */
    method FlushAll()
      requires Valid()
      modifies this`wins, this`emitted
      ensures Valid() && wins == map[] && old(emitted) <= emitted
      ensures forall key :: Of(emitted, key) == Of(recorded, key)
    {
      Drop(wins.Keys);
      assert wins == map[];
      forall key ensures Of(emitted, key) == Of(recorded, key) {
        assert Of(recorded, key) == Plus(Of(emitted, key), Pending(wins, key));
      }
    }
  }

  /** Operations are counted together exactly when they are of one grant, or of no known grant and one peer. */
  lemma CountedTogether(grant: string, peer: string, other: string, peer2: string)
    requires (grant == "" || grant[0] == 'g') && (other == "" || other[0] == 'g')
    ensures KeyOf(grant, peer) == KeyOf(other, peer2) <==> grant == other && (grant == "" ==> peer == peer2)
  {
    var a, b := "peer:" + peer, "peer:" + peer2;
    assert a[0] == 'p' && b[0] == 'p' && a[5..] == peer && b[5..] == peer2;
  }
}
