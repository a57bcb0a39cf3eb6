/**
 How far the byte budget is passed, exactly. The protocol document says that at
 most the one operation that crossed the budget exceeds it; that is so exactly
 when no two operations are in flight at once.
 */
module FetchBudgetExact {
  import opened Base
  import opened ByteWindow
  import opened FetchBudget

  function Empty(start: int): State { State(None, [], [], start) }

  // ---- Filling the budget one read at a time ----

  /** The second of the k-th read: one read a second while the hour lasts. */
  function At(hour: nat, k: nat): int { hour * 3600 + if k < 3599 then k else 3599 }

  lemma AtHour(hour: nat, k: nat)
    ensures UnixHour(At(hour, k)) == hour
  {
  }

  /** The clock readings of the operations asked for. */
  function Readings(es: seq<Event>): seq<int> {
    if es == [] then []
    else
      var e := es[|es| - 1];
      Readings(es[..|es| - 1]) + if e.Admit? then [e.now] else []
  }

  /** How many reads it takes to serve t bytes. */
  function Reads(t: nat): nat { if t == 0 then 0 else 1 + Reads(if t <= MAX_READ then 0 else t - MAX_READ) }

  lemma {:induction false} ReadsBound(t: nat, k: nat)
    requires t <= k * MAX_READ
    ensures Reads(t) <= k
  {
    if t > 0 { ReadsBound(if t <= MAX_READ then 0 else t - MAX_READ, k - 1); }
  }

  /** Nothing in flight, and t bytes counting in this hour. */
  predicate Filled(st: State, hour: int, t: int) {
    && st.ops == [] && st.latest <= hour
    && Spent(st.window) == t && Recent(hour, st.log) == t
    && (st.window.Some? ==> st.window.value.hour == hour)
  }

  /** Bytes served in the window's own hour count in full. */
  lemma AddInHour(w: Option<Window>, now: int, n: int)
    requires w.Some? ==> w.value.hour == UnixHour(now)
    ensures Added(w, now, n).hour == UnixHour(now) && Spent(Some(Added(w, now, n))) == Spent(w) + n
  {
    hide UnixHour;
    var was := if w.None? then Window(UnixHour(now), []) else w.value;
    RecentSnoc(was.hour, was.entries, Entry(was.hour, n));
    RecentEmpty(was.hour);
  }

  lemma RolledInHour(w: Option<Window>, now: int)
    requires w.Some? ==> w.value.hour == UnixHour(now)
    ensures Rolled(w, now) == w
  {
    hide UnixHour;
  }

  /** The window, if there is one, is in the hour of this reading. */
  predicate InHour(st: State, now: int) {
    st.latest <= UnixHour(now) && (st.window.Some? ==> st.window.value.hour == UnixHour(now))
  }

  lemma Admitted(st: State, now: int, length: nat, budget: int)
    requires InHour(st, now) && |st.ops| < PER_GRANT && Spent(st.window) < budget && length <= MAX_READ
    ensures Step(st, Admit(now, length), budget)
         == Some(st.(latest := UnixHour(now), ops := st.ops + [Op(now, length)]))
  {
    hide UnixHour, Rolled, Spent, Added, Total;
    RolledInHour(st.window, now);
  }

  lemma Served(st: State, i: nat, n: nat, now: int, budget: int)
    requires i < |st.ops| && st.ops[i].now == now && n <= st.ops[i].left && InHour(st, now)
    ensures var r := Step(st, Serve(i, n), budget);
            && r.Some? && InHour(r.value, now) && r.value.latest == st.latest
            && r.value.ops == st.ops[i := Op(now, st.ops[i].left - n)]
            && Spent(r.value.window) == Spent(st.window) + n
            && Recent(UnixHour(now), r.value.log) == Recent(UnixHour(now), st.log) + n
  {
    hide UnixHour, Added, Spent, Recent;
    AddInHour(st.window, now, n);
    RecentSnoc(UnixHour(now), st.log, Entry(UnixHour(now), n));
  }

  lemma OneRead(st: State, now: int, t: int, c: nat, budget: int)
    requires Filled(st, UnixHour(now), t) && t < budget && c <= MAX_READ
    ensures var s1 := Step(st, Admit(now, c), budget);
            && s1.Some? && |s1.value.ops| == 1
            && var s2 := Step(s1.value, Serve(0, c), budget);
               && s2.Some? && |s2.value.ops| == 1
               && var s3 := Step(s2.value, Finish(0), budget);
                  s3.Some? && s3.value.ops == [] && Filled(s3.value, UnixHour(now), t + c)
  {
    hide UnixHour, Recent, Added, Spent;
    Admitted(st, now, c, budget);
    var s1 := st.(latest := UnixHour(now), ops := [Op(now, c)]);
    Served(s1, 0, c, now, budget);
    var s2 := Step(s1, Serve(0, c), budget).value;
    assert s2.ops[..0] + s2.ops[1..] == [];
  }

  lemma AtMostSnoc(es: seq<Event>, e: Event, start: int, budget: int, m: nat)
    requires AtMost(es, start, budget, m)
    requires var r := Step(Run(Empty(start), es, budget).value, e, budget); r.Some? && |r.value.ops| <= m
    ensures AtMost(es + [e], start, budget, m)
    ensures Run(Empty(start), es + [e], budget) == Step(Run(Empty(start), es, budget).value, e, budget)
    ensures Readings(es + [e]) == Readings(es) + if e.Admit? then [e.now] else []
  {
    RunSnoc(Empty(start), es, e, budget);
    hide Step;
    assert (es + [e])[..|es|] == es;
  }

  /** One operation at a time, one a second, having served t bytes of the hour. */
  ghost predicate Serial(es: seq<Event>, hour: nat, start: int, t: nat, budget: int) {
    && AtMost(es, start, budget, 1) && Filled(Run(Empty(start), es, budget).value, hour, t)
    && |Readings(es)| == Reads(t) && forall i: nat | i < Reads(t) :: Readings(es)[i] == At(hour, i)
  }

  lemma OneMore(before: seq<Event>, hour: nat, start: int, t: nat, c: nat, budget: int) returns (es: seq<Event>)
    requires Serial(before, hour, start, t, budget) && t < budget && c <= MAX_READ && Reads(t + c) == Reads(t) + 1
    ensures Serial(es, hour, start, t + c, budget)
  {
    var k := Reads(t);
    var now := At(hour, k);
    AtHour(hour, k);
    var st := Run(Empty(start), before, budget).value;
    hide Step, Filled, Run, AtMost, Readings, At, UnixHour, Reads;
    OneRead(st, now, t, c, budget);
    AtMostSnoc(before, Admit(now, c), start, budget, 1);
    AtMostSnoc(before + [Admit(now, c)], Serve(0, c), start, budget, 1);
    AtMostSnoc(before + [Admit(now, c)] + [Serve(0, c)], Finish(0), start, budget, 1);
    es := before + [Admit(now, c)] + [Serve(0, c)] + [Finish(0)];
    assert Readings(es) == Readings(before) + [now];
  }

  /** Any number of bytes below the budget is served this way. */
  lemma {:induction false} Fill(hour: nat, start: int, t: nat, budget: int) returns (es: seq<Event>)
    requires start <= hour && t < budget
    ensures Serial(es, hour, start, t, budget)
    decreases t
  {
    if t == 0 {
      es := [];
      RecentEmpty(hour);
    } else {
      var c := if t <= MAX_READ then t else MAX_READ;
      var before := Fill(hour, start, t - c, budget);
      es := OneMore(before, hour, start, t - c, c, budget);
    }
  }

  // ---- Two at once ----

  lemma TwoReads(st: State, now: int, t: int, budget: int)
    requires Filled(st, UnixHour(now), t) && t < budget
    ensures var s1 := Step(st, Admit(now, MAX_READ), budget);
            && s1.Some? && |s1.value.ops| <= 2
            && var s2 := Step(s1.value, Admit(now, MAX_READ), budget);
               && s2.Some? && |s2.value.ops| <= 2
               && var s3 := Step(s2.value, Serve(0, MAX_READ), budget);
                  && s3.Some? && |s3.value.ops| <= 2
                  && var s4 := Step(s3.value, Serve(1, MAX_READ), budget);
                     && s4.Some? && |s4.value.ops| <= 2 && s4.value.latest == UnixHour(now)
                     && Recent(UnixHour(now), s4.value.log) == t + 2 * MAX_READ
  {
    hide UnixHour, Recent, Added, Spent, Step;
    Admitted(st, now, MAX_READ, budget);
    var s1 := Step(st, Admit(now, MAX_READ), budget).value;
    Admitted(s1, now, MAX_READ, budget);
    var s2 := Step(s1, Admit(now, MAX_READ), budget).value;
    Served(s2, 0, MAX_READ, now, budget);
    Served(Step(s2, Serve(0, MAX_READ), budget).value, 1, MAX_READ, now, budget);
  }

  /** At most two operations are asked for in any one second. */
  predicate Unhurried(readings: seq<int>) { forall i: nat | i + 2 < |readings| :: readings[i] < readings[i + 2] }

  lemma UnhurriedFill(hour: nat, readings: seq<int>, k: nat)
    requires k < 3599 && |readings| == k && forall i: nat | i < k :: readings[i] == At(hour, i)
    ensures Unhurried(readings + [At(hour, k)] + [At(hour, k)])
  {
    var all := readings + [At(hour, k)] + [At(hour, k)];
    forall i: nat | i + 2 < |all| ensures all[i] < all[i + 2] {
      assert all[i] == At(hour, i);
      assert all[i + 2] == At(hour, if i + 2 < k then i + 2 else k);
    }
  }

  /**
   For every budget: reads one at a time serve all but one byte of it, then two are admitted
   together and both cross it. Up to 3598 reads, which is more than three times the default
   budget, no second sees more than two operations.
   */
  lemma TwoOperationsCross(start: int, budget: int) returns (es: seq<Event>)
    requires budget > 0
    ensures AtMost(es, start, budget, 2)
    ensures var st := Run(Empty(start), es, budget).value;
            Recent(st.latest, st.log) == budget - 1 + 2 * MAX_READ
    ensures budget <= 3598 * MAX_READ ==> Unhurried(Readings(es))
  {
    var hour: nat := Max(start, 0);
    var before := Fill(hour, start, budget - 1, budget);
    var k := Reads(budget - 1);
    var now := At(hour, k);
    AtHour(hour, k);
    var st := Run(Empty(start), before, budget).value;
    TwoReads(st, now, budget - 1, budget);
    if budget <= 3598 * MAX_READ {
      ReadsBound(budget - 1, 3598);
      UnhurriedFill(hour, Readings(before), k);
    }
    NeverMoreThanTwo(before, start, budget);
    hide Step, Filled, Run, AtMost, Readings, At, UnixHour, Unhurried, Recent;
    var a, b := Admit(now, MAX_READ), Serve(0, MAX_READ);
    AtMostSnoc(before, a, start, budget, 2);
    AtMostSnoc(before + [a], a, start, budget, 2);
    AtMostSnoc(before + [a] + [a], b, start, budget, 2);
    AtMostSnoc(before + [a] + [a] + [b], Serve(1, MAX_READ), start, budget, 2);
    es := before + [a] + [a] + [b] + [Serve(1, MAX_READ)];
    assert Readings(es) == Readings(before) + [now] + [now];
  }

  /** The documented bound, the budget and one operation. */
  ghost predicate OneCrosses(start: int, budget: int, m: nat) {
    forall es | AtMost(es, start, budget, m) ::
      Recent(Run(Empty(start), es, budget).value.latest, Run(Empty(start), es, budget).value.log) < budget + MAX_READ
  }

  /** For every budget: the documented bound holds on all runs with at most m operations at once, exactly for m <= 1. */
  lemma OneAtATimeIsExact(start: int, budget: int, m: nat)
    requires budget > 0 && m <= PER_GRANT
    ensures OneCrosses(start, budget, m) <==> m <= 1
  {
    if m <= 1 {
      forall es | AtMost(es, start, budget, m)
        ensures Recent(Run(Empty(start), es, budget).value.latest, Run(Empty(start), es, budget).value.log)
              < budget + MAX_READ
      {
        BudgetHolds(es, start, budget, m, Run(Empty(start), es, budget).value.latest);
      }
    } else {
      var es := TwoOperationsCross(start, budget);
      assert AtMost(es, start, budget, m);
    }
  }

  // ---- Any day of a run whose clock does not go back ----

  /** The bytes of the operations begun in this hour and the 24 before it, and in no later hour. */
  function Within(hour: int, entries: seq<Entry>): int {
    if entries == [] then 0
    else
      var e := entries[|entries| - 1];
      Within(hour, entries[..|entries| - 1]) + if Counts(hour, e) && e.hour <= hour then e.n else 0
  }

  /** What the operations begun up to this hour may still serve. */
  function LeftUpTo(ops: seq<Op>, hour: int): nat {
    if ops == [] then 0
    else (if UnixHour(ops[0].now) <= hour then ops[0].left else 0) + LeftUpTo(ops[1..], hour)
  }

  /** A run on which each reading is in the latest hour or a later one. */
  predicate InOrder(es: seq<Event>, start: int, budget: int) {
    es != [] ==>
      var before, e := Run(Empty(start), es[..|es| - 1], budget), es[|es| - 1];
      && InOrder(es[..|es| - 1], start, budget)
      && before.Some? && (e.Admit? || e.Flush? ==> UnixHour(e.now) >= before.value.latest)
  }

  /** For every hour, past or to come: what was served inside its 25 hours and what may still be. */
  ghost predicate DaysBounded(st: State, budget: int, m: nat) {
    forall hour :: Within(hour, st.log) + LeftUpTo(st.ops, hour) < budget + m * MAX_READ
  }

  predicate LogOk(st: State) { NotLater(st.latest, st.log) && Positive(st.log) }

  lemma WithinSnoc(hour: int, entries: seq<Entry>, e: Entry)
    ensures Within(hour, entries + [e]) == Within(hour, entries) + if Counts(hour, e) && e.hour <= hour then e.n else 0
  {
    assert (entries + [e])[..|entries|] == entries;
  }

  lemma {:induction false} WithinAll(hour: int, entries: seq<Entry>)
    requires NotLater(hour, entries)
    ensures Within(hour, entries) == Recent(hour, entries)
    decreases |entries|
  {
    if entries != [] { WithinAll(hour, entries[..|entries| - 1]); }
  }

  /** What one operation adds to LeftUpTo. */
  function Share(op: Op, hour: int): nat { if UnixHour(op.now) <= hour then op.left else 0 }

  lemma LeftUpToOf(ops: seq<Op>, hour: int)
    requires |ops| <= PER_GRANT
    ensures LeftUpTo(ops, hour)
         == (if |ops| >= 1 then Share(ops[0], hour) else 0) + (if |ops| == 2 then Share(ops[1], hour) else 0)
  {
    if |ops| == 2 {
      assert LeftUpTo(ops[1..], hour) == Share(ops[1], hour) + LeftUpTo(ops[1..][1..], hour);
      assert ops[1..][1..] == [];
    }
  }

  /** A later reading than every earlier one: all that was served lies in the hours that count. */
  lemma AdmitDays(st: State, now: int, length: nat, budget: int, m: nat, hour: int)
    requires Inv(st, budget, m) && LogOk(st) && DaysBounded(st, budget, m)
    requires UnixHour(now) >= st.latest && length <= MAX_READ && m <= PER_GRANT
    requires |st.ops| < m && Spent(Rolled(st.window, now)) < budget
    ensures Within(hour, st.log) + LeftUpTo(st.ops + [Op(now, length)], hour) < budget + m * MAX_READ
  {
    var ops := st.ops + [Op(now, length)];
    LeftUpToOf(ops, hour);
    LeftUpToOf(st.ops, hour);
    assert Within(hour, st.log) + LeftUpTo(st.ops, hour) < budget + m * MAX_READ;
    if UnixHour(now) <= hour {
      WithinAll(hour, st.log);
      hide Recent, Within, LeftUpTo, UnixHour;
      assert Recent(hour, st.log) < budget by {
        if st.window.Some? {
          var w := st.window.value;
          TotalNeverGrows(RollTo(w, UnixHour(now)).hour, w.entries, hour);
        }
      }
    }
  }

  lemma ServeDays(st: State, i: nat, n: nat, hour: int)
    requires i < |st.ops| <= PER_GRANT && n <= st.ops[i].left
    ensures Within(hour, st.log + [Entry(UnixHour(st.ops[i].now), n)])
          + LeftUpTo(st.ops[i := st.ops[i].(left := st.ops[i].left - n)], hour)
         <= Within(hour, st.log) + LeftUpTo(st.ops, hour)
  {
    WithinSnoc(hour, st.log, Entry(UnixHour(st.ops[i].now), n));
    LeftUpToOf(st.ops, hour);
    LeftUpToOf(st.ops[i := st.ops[i].(left := st.ops[i].left - n)], hour);
    hide Within, LeftUpTo, UnixHour;
  }

  lemma FinishDays(ops: seq<Op>, i: nat, hour: int)
    requires i < |ops| <= PER_GRANT
    ensures LeftUpTo(ops[..i] + ops[i + 1..], hour) <= LeftUpTo(ops, hour)
  {
    LeftUpToOf(ops, hour);
    LeftUpToOf(ops[..i] + ops[i + 1..], hour);
  }

  lemma StepDays(st: State, e: Event, budget: int, m: nat)
    requires Inv(st, budget, m) && LogOk(st) && DaysBounded(st, budget, m) && m <= PER_GRANT
    requires Step(st, e, budget).Some? && |Step(st, e, budget).value.ops| <= m
    requires e.Admit? || e.Flush? ==> UnixHour(e.now) >= st.latest
    ensures DaysBounded(Step(st, e, budget).value, budget, m)
  {
    hide Within, LeftUpTo, UnixHour, Inv, Rolled, Spent, Added, Pruned, DaysBounded;
    var after := Step(st, e, budget).value;
    assert |st.ops| <= m && forall hour :: Within(hour, st.log) + LeftUpTo(st.ops, hour) < budget + m * MAX_READ by {
      InvParts(st, budget, m);
    }
    forall hour ensures Within(hour, after.log) + LeftUpTo(after.ops, hour) < budget + m * MAX_READ {
      match e
      case Admit(now, length) =>
        if |after.ops| > |st.ops| { AdmitDays(st, now, length, budget, m, hour); }
      case Serve(i, n) => ServeDays(st, i, n, hour);
      case Finish(i) => FinishDays(st.ops, i, hour);
      case Flush(_) =>
    }
    Days(after, budget, m);
  }

  lemma InvParts(st: State, budget: int, m: nat)
    requires Inv(st, budget, m) && DaysBounded(st, budget, m)
    ensures |st.ops| <= m
    ensures forall hour :: Within(hour, st.log) + LeftUpTo(st.ops, hour) < budget + m * MAX_READ
  {
  }

  lemma Days(st: State, budget: int, m: nat)
    requires forall hour :: Within(hour, st.log) + LeftUpTo(st.ops, hour) < budget + m * MAX_READ
    ensures DaysBounded(st, budget, m)
  {
  }

  lemma StepLogOk(st: State, e: Event, budget: int, m: nat)
    requires Inv(st, budget, m) && LogOk(st) && Step(st, e, budget).Some?
    ensures LogOk(Step(st, e, budget).value)
  {
    hide UnixHour, Spent, Rolled, Added, Pruned, Covers, Bounded;
  }

  lemma {:induction false} RunDays(es: seq<Event>, start: int, budget: int, m: nat)
    requires budget > 0 && m <= PER_GRANT && AtMost(es, start, budget, m) && InOrder(es, start, budget)
    ensures var st := Run(Empty(start), es, budget).value; LogOk(st) && DaysBounded(st, budget, m)
    decreases |es|
  {
    if es != [] {
      var init, e := es[..|es| - 1], es[|es| - 1];
      RunDays(init, start, budget, m);
      RunKeepsInv(init, start, budget, m);
      var before := Run(Empty(start), init, budget).value;
      hide Inv, LogOk, DaysBounded, Step, UnixHour;
      StepLogOk(before, e, budget, m);
      StepDays(before, e, budget, m);
    }
  }

  /**
   With clock readings in order: in every day of a run, not only the last, the operations begun
   in its 25 clock hours have served less than the budget plus m reads.
   */
  lemma AnyDayHolds(es: seq<Event>, start: int, budget: int, m: nat, hour: int)
    requires budget > 0 && m <= PER_GRANT && AtMost(es, start, budget, m) && InOrder(es, start, budget)
    ensures Within(hour, Run(Empty(start), es, budget).value.log) < budget + m * MAX_READ
  {
    RunDays(es, start, budget, m);
    hide Run, Within, LeftUpTo, AtMost, InOrder, LogOk;
  }
}
