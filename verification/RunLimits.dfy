/** At most 60 runs of a controller are accepted in any 24 hours. */
module RunLimits {
  import opened Base
  import opened RollingDay

  const MAX_PER_DAY := 60

  type Times = map<string, seq<int>>

  function Of(m: Times, peer: string): seq<int> { if peer in m then m[peer] else [] }

  /** pruneRecent: a controller with nothing recent is dropped. */
  function Pruned(recent: Times, now: int): Times {
    map p | p in recent && Recent(recent[p], now) != [] :: Recent(recent[p], now)
  }

  /** The stored times, the clock, and every acceptance there ever was. */
  datatype State = State(recent: Times, clock: int, accepted: Times)

  /** A request of peer that is otherwise in scope, and whether the queue has room. */
  datatype Event = Route(peer: string, room: bool, now: int)

  predicate Accepts(recent: Times, e: Event) { e.room && |Of(Pruned(recent, e.now), e.peer)| < MAX_PER_DAY }

  /** A refused request saves nothing; an accepted one saves the pruned times with its own. */
  function Step(st: State, e: Event): Option<State> {
    if e.now < st.clock then None
    else if !Accepts(st.recent, e) then Some(st.(clock := e.now))
    else
      var kept := Pruned(st.recent, e.now);
      Some(State(kept[e.peer := Of(kept, e.peer) + [e.now]], e.now,
                 st.accepted[e.peer := Of(st.accepted, e.peer) + [e.now]]))
  }

  function Run(st: State, es: seq<Event>): Option<State> {
    if es == [] then Some(st)
    else
      var before := Run(st, es[..|es| - 1]);
      if before.None? then None else Step(before.value, es[|es| - 1])
  }

  /** 61 acceptances take at least a day. */
  predicate Spread(times: seq<int>) {
    forall i | 0 <= i < |times| - MAX_PER_DAY :: times[i] + DAY <= times[i + MAX_PER_DAY]
  }

  /** What is stored counts like the whole history, now and later. */
  ghost predicate Faithful(st: State, peer: string) {
    forall t :: t >= st.clock ==> Recent(Of(st.recent, peer), t) == Recent(Of(st.accepted, peer), t)
  }

  ghost predicate Inv(st: State, peer: string) {
    var times := Of(st.accepted, peer);
    && Faithful(st, peer) && Ordered(times) && Spread(times)
    && forall i | 0 <= i < |times| :: times[i] <= st.clock
  }

  lemma PrunedOf(recent: Times, peer: string, now: int)
    ensures Of(Pruned(recent, now), peer) == Recent(Of(recent, peer), now)
  {
  }

  lemma AcceptedSpread(times: seq<int>, now: int)
    requires Ordered(times) && Spread(times) && |Recent(times, now)| < MAX_PER_DAY
    requires forall i | 0 <= i < |times| :: times[i] <= now
    ensures Ordered(times + [now]) && Spread(times + [now])
  {
    var i := |times| - MAX_PER_DAY;
    if i >= 0 && times[i] > now - DAY { RecentSuffix(times, i, now); assert false; }
  }

  lemma AcceptedFaithful(st: State, e: Event, peer: string)
    requires Faithful(st, peer) && Step(st, e).Some?
    ensures Faithful(Step(st, e).value, peer)
  {
    var after := Step(st, e).value;
    PrunedOf(st.recent, peer, e.now);
    hide Pruned, Recent;
    forall t | t >= after.clock ensures Recent(Of(after.recent, peer), t) == Recent(Of(after.accepted, peer), t) {
      RecentLater(Of(st.recent, peer), e.now, t);
      assert Recent(Of(st.recent, peer), t) == Recent(Of(st.accepted, peer), t);
      RecentSnoc(Of(st.accepted, peer), e.now, t);
      RecentSnoc(Recent(Of(st.recent, peer), e.now), e.now, t);
    }
  }

  lemma StepInv(st: State, e: Event, peer: string)
    requires Inv(st, peer) && Step(st, e).Some?
    ensures Inv(Step(st, e).value, peer)
  {
    AcceptedFaithful(st, e, peer);
    PrunedOf(st.recent, peer, e.now);
    assert Recent(Of(st.recent, peer), e.now) == Recent(Of(st.accepted, peer), e.now);
    hide Recent, Pruned, Faithful, Spread, Ordered;
    if e.peer == peer && Accepts(st.recent, e) { AcceptedSpread(Of(st.accepted, peer), e.now); }
  }

  /** Over every history of requests, for every controller: never more than 60 accepted in any 24 hours. */
  lemma {:induction false} SixtyADay(es: seq<Event>, start: int, peer: string)
    requires Run(State(map[], start, map[]), es).Some?
    ensures Inv(Run(State(map[], start, map[]), es).value, peer)
    ensures Spread(Of(Run(State(map[], start, map[]), es).value.accepted, peer))
    decreases |es|
  {
    if es != [] {
      SixtyADay(es[..|es| - 1], start, peer);
      StepInv(Run(State(map[], start, map[]), es[..|es| - 1]).value, es[|es| - 1], peer);
    }
  }

  /** On every run: a request the queue has room for is refused exactly when 60 were accepted in the 24 hours before. */
  lemma AcceptsExactly(es: seq<Event>, start: int, e: Event)
    requires Run(State(map[], start, map[]), es).Some? && e.now >= Run(State(map[], start, map[]), es).value.clock
    ensures var st := Run(State(map[], start, map[]), es).value;
            Accepts(st.recent, e) <==> e.room && |Young(Of(st.accepted, e.peer), e.now)| < 60
  {
    hide Run, Recent, Young;
    SixtyADay(es, start, e.peer);
    var st := Run(State(map[], start, map[]), es).value;
    PrunedOf(st.recent, e.peer, e.now);
    assert Recent(Of(st.recent, e.peer), e.now) == Recent(Of(st.accepted, e.peer), e.now);
    RecentCounts(Of(st.accepted, e.peer), e.now);
  }
}
