/**
 The replay memory of one peer: which request ids were accepted when. Times are
 in milliseconds.
 */
module FetchReplay {
  import opened Base

  const TS_PAST := 30_000
  const TS_FUTURE := 600_000
  const REMEMBER := 660_000
  const CAPACITY := 16384

  /** How far a request may lag behind the clock it read for the memory to be long enough. */
  const SLACK := REMEMBER - (TS_PAST + TS_FUTURE)

  type Store = map<string, int>

  /** The entries still inside the window, what Flush and a full store keep. */
  function Prune(reqs: Store, now: int): Store { map k | k in reqs && now - reqs[k] <= REMEMBER :: reqs[k] }

  datatype Marked = Marked(reqs: Store, ok: bool)

  /** markSeen on the peer's store. */
  function Mark(reqs: Store, req: string, now: int): Marked {
    if req in reqs && now - reqs[req] <= REMEMBER then Marked(reqs, false)
    else
      var kept := if |reqs| >= CAPACITY then Prune(reqs, now) else reqs;
      if |kept| >= CAPACITY then Marked(kept, false) else Marked(kept[req := now], true)
  }

  /** The ts window of serve. */
  predicate InWindow(ts: int, now: int) { now - TS_PAST <= ts <= now + TS_FUTURE }

  // ---- Forgetting is invisible ----

  datatype Call = Ask(req: string, now: int) | Clean(now: int)

  /** The answers of the server's store, which Flush and full-store pruning shrink. */
  function Answers(reqs: Store, calls: seq<Call>): seq<bool>
    decreases |calls|
  {
    if calls == [] then []
    else
      match calls[0]
      case Clean(now) => Answers(Prune(reqs, now), calls[1..])
      case Ask(req, now) => var m := Mark(reqs, req, now); [m.ok] + Answers(m.reqs, calls[1..])
  }

  /** The ids accepted in the last eleven minutes. */
  function Lately(all: Store, now: int): set<string> { set k | k in all && now - all[k] <= 660_000 }

  /** The answers of a store that forgets nothing: refuse what was accepted inside the window, and a full window. */
  function Reference(all: Store, calls: seq<Call>): seq<bool>
    decreases |calls|
  {
    if calls == [] then []
    else
      match calls[0]
      case Clean(_) => Reference(all, calls[1..])
      case Ask(req, now) =>
        var ok := req !in Lately(all, now) && |Lately(all, now)| < 16384;
        [ok] + Reference(if ok then all[req := now] else all, calls[1..])
  }

  predicate Ordered(from: int, calls: seq<Call>)
    decreases |calls|
  {
    calls == [] || (from <= calls[0].now && Ordered(calls[0].now, calls[1..]))
  }

  lemma PruneTwice(reqs: Store, t: int, now: int)
    requires t <= now
    ensures Prune(Prune(reqs, t), now) == Prune(reqs, now)
    ensures Prune(reqs, now).Keys <= reqs.Keys && |Prune(reqs, now)| <= |reqs|
  {
    Fewer(Prune(reqs, now).Keys, reqs.Keys);
  }

  lemma PruneAdd(a: Store, b: Store, req: string, now: int)
    requires Prune(a, now) == Prune(b, now)
    ensures Prune(a[req := now], now) == Prune(b[req := now], now)
  {
    var p, q := Prune(a[req := now], now), Prune(b[req := now], now);
    forall k ensures (k in p <==> k in q) && (k in p ==> p[k] == q[k]) {
      assert k in Prune(a, now) <==> k in Prune(b, now);
      if k in Prune(a, now) { assert Prune(a, now)[k] == Prune(b, now)[k]; }
    }
  }

  lemma MarkAgrees(reqs: Store, all: Store, req: string, now: int)
    requires Prune(reqs, now) == Prune(all, now)
    ensures Mark(reqs, req, now).ok <==> req !in Lately(all, now) && |Lately(all, now)| < 16384
    ensures var m := Mark(reqs, req, now);
            Prune(m.reqs, now) == Prune(if m.ok then all[req := now] else all, now)
  {
    PruneTwice(reqs, now, now);
    assert Prune(all, now).Keys == Lately(all, now);
    assert req in Prune(reqs, now) <==> req in reqs && now - reqs[req] <= REMEMBER;
    var m := Mark(reqs, req, now);
    if m.ok {
      var kept := if |reqs| >= CAPACITY then Prune(reqs, now) else reqs;
      PruneAdd(kept, all, req, now);
    }
  }

  /** On calls in clock order, neither Flush nor the pruning of a full store ever changes an answer. */
  lemma {:induction false} ForgettingIsInvisible(reqs: Store, all: Store, from: int, calls: seq<Call>)
    requires Prune(reqs, from) == Prune(all, from) && Ordered(from, calls)
    ensures Answers(reqs, calls) == Reference(all, calls)
    decreases |calls|
  {
    if calls != [] {
      var now := calls[0].now;
      PruneTwice(reqs, from, now);
      PruneTwice(all, from, now);
      PruneTwice(reqs, now, now);
      hide Prune;
      match calls[0]
      case Clean(_) => ForgettingIsInvisible(Prune(reqs, now), all, now, calls[1..]);
      case Ask(req, _) =>
        MarkAgrees(reqs, all, req, now);
        var m := Mark(reqs, req, now);
        hide Mark;
        ForgettingIsInvisible(m.reqs, if m.ok then all[req := now] else all, now, calls[1..]);
    }
  }

  // ---- At most once ----

  /** A request that passed the check: its id, its own time and the clock it was checked against. */
  datatype Pass = Pass(req: string, ts: int, now: int)

  datatype State = State(reqs: Store, clock: int, passed: seq<Pass>)

  /** A worker that read the clock at `now`, or Flush that did, takes the mutex at `at`. */
  datatype Event = Request(req: string, ts: int, now: int, at: int) | Flush(now: int, at: int)

  function Step(st: State, e: Event): Option<State> {
    if e.at < st.clock || e.now > e.at then None
    else
      match e
      case Flush(now, at) => Some(st.(reqs := Prune(st.reqs, now), clock := at))
      case Request(req, ts, now, at) =>
        if !InWindow(ts, now) then None
        else
          var m := Mark(st.reqs, req, now);
          Some(State(m.reqs, at, if m.ok then st.passed + [Pass(req, ts, now)] else st.passed))
  }

  function Run(st: State, es: seq<Event>): Option<State> {
    if es == [] then Some(st)
    else
      var before := Run(st, es[..|es| - 1]);
      if before.None? then None else Step(before.value, es[|es| - 1])
  }

  /** No request waits longer than d between reading the clock and being checked. */
  predicate Prompt(es: seq<Event>, d: int) { forall i | 0 <= i < |es| && es[i].Request? :: es[i].at - es[i].now <= d }

  predicate Twice(passed: seq<Pass>, i: int, j: int)
    requires 0 <= i < j < |passed|
  {
    passed[i].req == passed[j].req && passed[i].ts == passed[j].ts
  }

  predicate AtMostOnce(passed: seq<Pass>) { forall i, j | 0 <= i < j < |passed| :: !Twice(passed, i, j) }

  /** A pass is still remembered, at its time or later, unless the clock is past its window. */
  predicate Remembered(st: State, p: Pass) {
    (p.req in st.reqs && p.now <= st.reqs[p.req]) || st.clock > p.now + REMEMBER
  }

  predicate Inv(st: State) {
    && AtMostOnce(st.passed)
    && forall i | 0 <= i < |st.passed| :: Remembered(st, st.passed[i]) && InWindow(st.passed[i].ts, st.passed[i].now)
  }

  lemma StepRemembers(st: State, e: Event, p: Pass)
    requires Step(st, e).Some? && Remembered(st, p)
    ensures Remembered(Step(st, e).value, p)
  {
  }

  /** The same request again, checked within the slack, is refused. */
  lemma Refused(st: State, p: Pass, e: Event)
    requires e.Request? && Step(st, e).Some? && Remembered(st, p) && InWindow(p.ts, p.now)
    requires e.req == p.req && e.ts == p.ts && e.at - e.now <= SLACK
    ensures !Mark(st.reqs, e.req, e.now).ok
  {
  }

  lemma StepKeepsInv(st: State, e: Event)
    requires Inv(st) && Step(st, e).Some? && (e.Request? ==> e.at - e.now <= SLACK)
    ensures Inv(Step(st, e).value)
  {
    var after := Step(st, e).value;
    forall i | 0 <= i < |st.passed| ensures Remembered(after, st.passed[i]) {
      StepRemembers(st, e, st.passed[i]);
    }
    forall i, j | 0 <= i < j < |st.passed| ensures !Twice(after.passed, i, j) {
      assert !Twice(st.passed, i, j);
    }
    if |after.passed| > |st.passed| {
      forall i | 0 <= i < |st.passed| ensures !Twice(after.passed, i, |st.passed|) {
        if Twice(after.passed, i, |st.passed|) { Refused(st, st.passed[i], e); assert false; }
      }
    }
  }

  /** Requests checked promptly: the same id with the same ts passes at most once, on every run. */
  lemma {:induction false} AtMostOnceWithinSlack(es: seq<Event>, clock: int)
    requires Run(State(map[], clock, []), es).Some? && Prompt(es, SLACK)
    ensures Inv(Run(State(map[], clock, []), es).value)
    decreases |es|
  {
    if es != [] {
      var init := es[..|es| - 1];
      assert Prompt(init, SLACK) by { assert forall i | 0 <= i < |init| :: init[i] == es[i]; }
      AtMostOnceWithinSlack(init, clock);
      StepKeepsInv(Run(State(map[], clock, []), init).value, es[|es| - 1]);
    }
  }

  lemma LateSteps(clock: int, req: string)
    ensures var ts, late := clock + TS_FUTURE, clock + REMEMBER + 1;
            var st1 := State(map[req := clock], clock, [Pass(req, ts, clock)]);
            var st2 := State(map[], late, st1.passed);
            && Step(State(map[], clock, []), Request(req, ts, clock, clock)) == Some(st1)
            && Step(st1, Flush(late, late)) == Some(st2)
            && Step(st2, Request(req, ts, ts + TS_PAST, late))
            == Some(State(map[req := ts + TS_PAST], late, st2.passed + [Pass(req, ts, ts + TS_PAST)]))
  {
    var p := Pass(req, clock + TS_FUTURE, clock);
    assert [] + [p] == [p];
    assert Prune(map[req := clock], clock + REMEMBER + 1) == map[];
  }

  /** A request delayed by one millisecond more can pass twice: Flush has forgotten it. */
  lemma LateRequestPassesTwice(clock: int, req: string)
    ensures exists es :: Prompt(es, SLACK + 1) && var r := Run(State(map[], clock, []), es);
              r.Some? && !AtMostOnce(r.value.passed)
  {
    var ts, late := clock + TS_FUTURE, clock + REMEMBER + 1;
    var e0, e1, e2 := Request(req, ts, clock, clock), Flush(late, late), Request(req, ts, ts + TS_PAST, late);
    LateSteps(clock, req);
    hide Step;
    var st0 := State(map[], clock, []);
    RunSnoc(st0, [], e0);
    RunSnoc(st0, [] + [e0], e1);
    RunSnoc(st0, [] + [e0] + [e1], e2);
    var es := [] + [e0] + [e1] + [e2];
    hide Run;
    assert Twice(Run(st0, es).value.passed, 0, 1);
    assert Prompt(es, SLACK + 1);
  }

  lemma RunSnoc(st: State, es: seq<Event>, e: Event)
    ensures Run(st, []) == Some(st)
    ensures Run(st, es).Some? ==> Run(st, es + [e]) == Step(Run(st, es).value, e)
  {
    assert (es + [e])[..|es|] == es;
  }

  /** The bound is exact: requests pass at most once on all runs with delays up to d iff d is within the slack. */
  lemma SlackIsExact(d: int, clock: int)
    ensures (forall es | Prompt(es, d) && Run(State(map[], clock, []), es).Some?
               :: AtMostOnce(Run(State(map[], clock, []), es).value.passed))
        <==> d <= 30_000
  {
    if d <= SLACK {
      forall es | Prompt(es, d) && Run(State(map[], clock, []), es).Some?
        ensures AtMostOnce(Run(State(map[], clock, []), es).value.passed)
      {
        assert Prompt(es, SLACK);
        AtMostOnceWithinSlack(es, clock);
      }
    } else {
      LateRequestPassesTwice(clock, "");
      var es :| Prompt(es, SLACK + 1)
             && var r := Run(State(map[], clock, []), es); r.Some? && !AtMostOnce(r.value.passed);
      assert Prompt(es, d);
    }
  }
}
