/**
 The byte budget of one grant over every run of admit, addServed, release and
 Flush, with any clock readings. `log` keeps what the server forgets: every
 byte ever served, under the hour its operation began.
 */
module FetchBudget {
  import opened Base
  import opened ByteWindow
  import FetchRead
  import FetchSlots

  const MAX_READ := FetchRead.MAX_READ
  const PER_GRANT := FetchSlots.PER_GRANT

  /** An admitted operation: its clock reading, and how many bytes it may still serve. */
  datatype Op = Op(now: int, left: nat)

  datatype State = State(window: Option<Window>, ops: seq<Op>, log: seq<Entry>, latest: int)

  datatype Event =
    | Admit(now: int, length: nat)
    | Serve(i: nat, n: nat)
    | Finish(i: nat)
    | Flush(now: int)

  function Max(a: int, b: int): int { if a < b then b else a }

  /** sum rolls the window even when admit then refuses. */
  function Rolled(w: Option<Window>, now: int): Option<Window> {
    if w.None? then None else Some(RollTo(w.value, UnixHour(now)))
  }

  function Spent(w: Option<Window>): int { if w.None? then 0 else Total(w.value) }

  /** addServed. */
  function Added(w: Option<Window>, now: int, n: int): Window {
    AddTo(if w.None? then Window(UnixHour(now), []) else w.value, UnixHour(now), n)
  }

  /** The part of Flush that forgets a window with nothing left to count. */
  function Pruned(w: Option<Window>, now: int): Option<Window> {
    if w.Some? && UnixHour(now) - w.value.hour >= BUCKETS then None else w
  }

  function Step(st: State, e: Event, budget: int): Option<State> {
    match e
    case Admit(now, length) =>
      if length > MAX_READ then None
      else
        var read := st.(latest := Max(st.latest, UnixHour(now)));
        if |st.ops| >= PER_GRANT then Some(read)
        else
          var rolled := read.(window := Rolled(st.window, now));
          if Spent(rolled.window) >= budget then Some(rolled)
          else Some(rolled.(ops := st.ops + [Op(now, length)]))
    case Serve(i, n) =>
      if i >= |st.ops| || n > st.ops[i].left then None
      else
        var op := st.ops[i];
        Some(st.(window := Some(Added(st.window, op.now, n)),
                 ops := st.ops[i := op.(left := op.left - n)],
                 log := st.log + [Entry(UnixHour(op.now), n)]))
    case Finish(i) => if i >= |st.ops| then None else Some(st.(ops := st.ops[..i] + st.ops[i + 1..]))
    case Flush(now) => Some(st.(window := Pruned(st.window, now), latest := Max(st.latest, UnixHour(now))))
  }

  function Run(st: State, es: seq<Event>, budget: int): Option<State> {
    if es == [] then Some(st)
    else
      var before := Run(st, es[..|es| - 1], budget);
      if before.None? then None else Step(before.value, es[|es| - 1], budget)
  }

  /** What the admitted operations may still serve. */
  function Left(ops: seq<Op>): nat { if ops == [] then 0 else ops[0].left + Left(ops[1..]) }

  // ---- Invariant ----

  predicate Positive(entries: seq<Entry>) { forall i | 0 <= i < |entries| :: entries[i].n >= 0 }

  /** Every byte of the log that can still count in a later hour counts in the window too. */
  ghost predicate Covers(st: State) {
    forall h :: h >= st.latest ==>
      Recent(h, st.log) <= if st.window.None? then 0 else Recent(h, st.window.value.entries)
  }

  predicate WindowOk(st: State) {
    && (st.window.Some? ==>
          var w := st.window.value;
          w.hour <= st.latest && NotLater(w.hour, w.entries) && Positive(w.entries))
    && forall i | 0 <= i < |st.ops| :: UnixHour(st.ops[i].now) <= st.latest
  }

  /** What is spent and what the operations in flight, at most m at a time, may still spend. */
  predicate Bounded(st: State, budget: int, m: nat) {
    && |st.ops| <= m
    && (forall i | 0 <= i < |st.ops| :: st.ops[i].left <= MAX_READ)
    && Spent(st.window) + Left(st.ops) < budget + m * MAX_READ
  }

  ghost predicate Inv(st: State, budget: int, m: nat) { WindowOk(st) && Covers(st) && Bounded(st, budget, m) }

  /** A run from an empty server on which at most m operations are in flight at any time. */
  predicate AtMost(es: seq<Event>, start: int, budget: int, m: nat) {
    var r := Run(State(None, [], [], start), es, budget);
    r.Some? && |r.value.ops| <= m && (es != [] ==> AtMost(es[..|es| - 1], start, budget, m))
  }

  /** Every run has at most two. */
  lemma {:induction false} NeverMoreThanTwo(es: seq<Event>, start: int, budget: int)
    requires Run(State(None, [], [], start), es, budget).Some?
    ensures AtMost(es, start, budget, PER_GRANT)
    decreases |es|
  {
    if es != [] {
      NeverMoreThanTwo(es[..|es| - 1], start, budget);
      hide UnixHour, Spent, Rolled, Added, Pruned;
      var before := Run(State(None, [], [], start), es[..|es| - 1], budget).value;
      assert |Step(before, es[|es| - 1], budget).value.ops| <= PER_GRANT;
    }
  }

  // ---- The steps keep it ----

  lemma RecentSnoc(hour: int, entries: seq<Entry>, e: Entry)
    ensures Recent(hour, entries + [e]) == Recent(hour, entries) + if Counts(hour, e) then e.n else 0
  {
    assert (entries + [e])[..|entries|] == entries;
  }

  lemma {:induction false} NothingRecent(hour: int, entries: seq<Entry>, later: int)
    requires NotLater(hour, entries) && later - hour >= BUCKETS
    ensures Recent(later, entries) == 0
    decreases |entries|
  {
    if entries != [] { NothingRecent(hour, entries[..|entries| - 1], later); }
  }

  lemma RollSpendsNothing(w: Option<Window>, now: int)
    requires w.Some? ==> Positive(w.value.entries)
    ensures 0 <= Spent(Rolled(w, now)) <= Spent(w)
  {
    if w.Some? {
      TotalNeverGrows(w.value.hour, w.value.entries, w.value.hour);
      TotalNeverGrows(w.value.hour, w.value.entries, RollTo(w.value, UnixHour(now)).hour);
    }
  }

  lemma AddSpends(w: Option<Window>, now: int, n: nat)
    requires w.Some? ==> Positive(w.value.entries)
    ensures Spent(Some(Added(w, now, n))) <= Spent(w) + n
  {
    var was := if w.None? then Window(UnixHour(now), []) else w.value;
    var r := RollTo(was, UnixHour(now));
    RecentSnoc(r.hour, r.entries, Entry(r.hour, n));
    TotalNeverGrows(was.hour, was.entries, r.hour);
  }

  lemma PruneSpendsNothing(w: Option<Window>, now: int)
    requires w.Some? ==> Positive(w.value.entries)
    ensures Spent(Pruned(w, now)) <= Spent(w)
  {
    if w.Some? { TotalNeverGrows(w.value.hour, w.value.entries, w.value.hour); }
  }

  lemma LeftOf(ops: seq<Op>)
    requires |ops| <= PER_GRANT
    ensures Left(ops) == (if |ops| >= 1 then ops[0].left else 0) + (if |ops| == 2 then ops[1].left else 0)
  {
    if |ops| == 2 {
      assert Left(ops[1..]) == ops[1].left + Left(ops[1..][1..]);
      assert ops[1..][1..] == [];
    }
  }

  lemma LeftAt(ops: seq<Op>, i: nat, x: nat)
    requires i < |ops| <= PER_GRANT
    ensures Left(ops) == ops[i].left + Left(ops[..i] + ops[i + 1..])
    ensures Left(ops[i := ops[i].(left := x)]) == Left(ops) - ops[i].left + x
  {
    LeftOf(ops);
    LeftOf(ops[..i] + ops[i + 1..]);
    LeftOf(ops[i := ops[i].(left := x)]);
  }

  lemma AdmitBounded(st: State, now: int, length: nat, budget: int, m: nat)
    requires Bounded(st, budget, m) && (st.window.Some? ==> Positive(st.window.value.entries)) && length <= MAX_READ
    requires |Step(st, Admit(now, length), budget).value.ops| <= m <= PER_GRANT
    ensures Bounded(Step(st, Admit(now, length), budget).value, budget, m)
  {
    hide Total, Rolled, Spent, UnixHour, Left;
    RollSpendsNothing(st.window, now);
    if |st.ops| < PER_GRANT && Spent(Rolled(st.window, now)) < budget {
      var ops := st.ops + [Op(now, length)];
      LeftOf(ops);
      assert Left(ops) <= m * MAX_READ;
    }
  }

  lemma ServeBounded(st: State, i: nat, n: nat, budget: int, m: nat)
    requires Bounded(st, budget, m) && (st.window.Some? ==> Positive(st.window.value.entries)) && m <= PER_GRANT
    requires i < |st.ops| && n <= st.ops[i].left
    ensures Bounded(Step(st, Serve(i, n), budget).value, budget, m)
  {
    hide Total, Added, Spent, UnixHour, Left;
    AddSpends(st.window, st.ops[i].now, n);
    LeftAt(st.ops, i, st.ops[i].left - n);
  }

  lemma StepBounded(st: State, e: Event, budget: int, m: nat)
    requires Inv(st, budget, m) && Step(st, e, budget).Some?
    requires |Step(st, e, budget).value.ops| <= m <= PER_GRANT
    ensures Bounded(Step(st, e, budget).value, budget, m)
  {
    hide Covers, Total, Added, Rolled, Pruned, Spent, UnixHour, Left;
    match e
    case Admit(now, length) => AdmitBounded(st, now, length, budget, m);
    case Serve(i, n) => ServeBounded(st, i, n, budget, m);
    case Finish(i) => LeftAt(st.ops, i, 0);
    case Flush(now) => PruneSpendsNothing(st.window, now);
  }

  lemma StepWindowOk(st: State, e: Event, budget: int)
    requires WindowOk(st) && Step(st, e, budget).Some?
    ensures WindowOk(Step(st, e, budget).value)
  {
    hide UnixHour, Spent;
  }

  lemma StepCovers(st: State, e: Event, budget: int)
    requires WindowOk(st) && Covers(st) && Step(st, e, budget).Some?
    ensures Covers(Step(st, e, budget).value)
  {
    hide UnixHour, Spent, Recent;
    var after := Step(st, e, budget).value;
    forall h | h >= after.latest
      ensures Recent(h, after.log) <= if after.window.None? then 0 else Recent(h, after.window.value.entries)
    {
      match e
      case Admit(_, _) =>
      case Finish(_) =>
      case Serve(i, n) =>
        var was := if st.window.None? then [] else st.window.value.entries;
        var eff := after.window.value.entries[|was|];
        RecentSnoc(h, st.log, Entry(UnixHour(st.ops[i].now), n));
        RecentSnoc(h, was, eff);
        assert Recent(h, []) == 0 by { RecentEmpty(h); }
      case Flush(now) =>
        if after.window.None? && st.window.Some? {
          NothingRecent(st.window.value.hour, st.window.value.entries, h);
        }
    }
  }

  lemma RecentEmpty(hour: int)
    ensures Recent(hour, []) == 0
  {
  }

  lemma {:induction false} RunKeepsInv(es: seq<Event>, start: int, budget: int, m: nat)
    requires budget > 0 && m <= PER_GRANT && AtMost(es, start, budget, m)
    ensures Inv(Run(State(None, [], [], start), es, budget).value, budget, m)
    decreases |es|
  {
    var st := State(None, [], [], start);
    if es == [] {
      assert Inv(st, budget, m);
    } else {
      RunKeepsInv(es[..|es| - 1], start, budget, m);
      var before := Run(st, es[..|es| - 1], budget).value;
      hide Covers, WindowOk, Bounded;
      StepBounded(before, es[|es| - 1], budget, m);
      StepWindowOk(before, es[|es| - 1], budget);
      StepCovers(before, es[|es| - 1], budget);
    }
  }

  /**
   At any hour from the latest reading on, the operations begun in that hour and
   the 24 before it have served less than the budget plus m reads, where m is the
   most operations the run had in flight at once.
   */
  lemma BudgetHolds(es: seq<Event>, start: int, budget: int, m: nat, hour: int)
    requires budget > 0 && m <= PER_GRANT && AtMost(es, start, budget, m)
    requires hour >= Run(State(None, [], [], start), es, budget).value.latest
    ensures Recent(hour, Run(State(None, [], [], start), es, budget).value.log) < budget + m * MAX_READ
  {
    RunKeepsInv(es, start, budget, m);
    var st := Run(State(None, [], [], start), es, budget).value;
    hide Run, Recent, AtMost;
    if st.window.Some? { TotalNeverGrows(st.window.value.hour, st.window.value.entries, hour); }
  }

  lemma RunSnoc(st: State, es: seq<Event>, e: Event, budget: int)
    ensures Run(st, [], budget) == Some(st)
    ensures Run(st, es, budget).Some? ==> Run(st, es + [e], budget) == Step(Run(st, es, budget).value, e, budget)
  {
    assert (es + [e])[..|es|] == es;
  }

  // ---- What is refused ----

  /** An operation is admitted exactly when fewer than two are in flight and the 25 hours have bytes left. */
  lemma AdmitsExactly(st: State, now: int, length: nat, budget: int)
    requires length <= MAX_READ && WindowOk(st)
    ensures var after := Step(st, Admit(now, length), budget);
            && after.Some?
            && (after.value.ops == st.ops + [Op(now, length)]
                <==> |st.ops| < 2 && Used(st.window, UnixHour(now)) < budget)
            && (after.value.ops == st.ops || after.value.ops == st.ops + [Op(now, length)])
  {
    if st.window.Some? { CountsLast25(st.window.value, UnixHour(now)); }
    hide UnixHour, Total, Between;
  }

  /** The bytes a window holds against an hour. */
  function Used(w: Option<Window>, hour: int): int {
    if w.None? then 0
    else
      var newest := Max(hour, w.value.hour);
      Between(w.value.entries, newest - 24, newest)
  }

  lemma {:induction false} NothingBetween(entries: seq<Entry>, hour: int, from: int, to: int)
    requires NotLater(hour, entries) && hour < from
    ensures Between(entries, from, to) == 0
    decreases |entries|
  {
    if entries != [] {
      assert entries[|entries| - 1].hour <= hour;
      NothingBetween(entries[..|entries| - 1], hour, from, to);
    }
  }

  /** 25 hours after the last byte the whole budget is back. */
  lemma BudgetReturns(st: State, now: int, length: nat, budget: int)
    requires length <= MAX_READ && WindowOk(st) && |st.ops| < 2 && budget > 0
    requires st.window.Some? ==> UnixHour(now) >= st.window.value.hour + 25
    ensures Step(st, Admit(now, length), budget).value.ops == st.ops + [Op(now, length)]
  {
    hide UnixHour, Total;
    AdmitsExactly(st, now, length, budget);
    if st.window.Some? {
      var w := st.window.value;
      NothingBetween(w.entries, w.hour, UnixHour(now) - 24, UnixHour(now));
    }
  }
}
