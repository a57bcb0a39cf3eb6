/**
 Limits of the form "so many per period" that are kept with one window per key:
 it starts at the first use, counts up to the limit, and is started again by
 the first use a period later. A window nobody needs any more may be dropped.
 What such a limit really keeps: twice the limit in some periods, and the limit
 itself exactly when a window starts after a quiet period.
 */
module FixedWindow {
  import opened Base

  /** The window a use falls in, as start and count: a new one when there is none or it is a period old. */
  function Current(open: Option<(int, int)>, now: int, period: int): (int, int) {
    if open.None? || now - open.value.0 >= period then (now, 0) else open.value
  }

  /** One key's window, the last clock reading, and the times of what was let through. */
  datatype Pace = Pace(open: Option<(int, int)>, clock: int, times: seq<int>)

  /** A use that counts, one refused for another reason after the window was looked at, and dropping an old window. */
  datatype Tick = Use(now: int) | Look(now: int) | Drop(now: int)

  function Step(p: Pace, t: Tick, limit: nat, period: nat): Pace {
    match t
    case Drop(now) => Pace(if p.open.Some? && now - p.open.value.0 >= period then None else p.open, now, p.times)
    case Look(now) => Pace(Some(Current(p.open, now, period)), now, p.times)
    case Use(now) =>
      var w := Current(p.open, now, period);
      if w.1 < limit then Pace(Some((w.0, w.1 + 1)), now, p.times + [now]) else Pace(Some(w), now, p.times)
  }

  predicate InOrder(from: int, ts: seq<Tick>)
    decreases |ts|
  {
    ts == [] || (from <= ts[0].now && InOrder(ts[0].now, ts[1..]))
  }

  function Run(p: Pace, ts: seq<Tick>, limit: nat, period: nat): Pace
    decreases |ts|
  {
    if ts == [] then p else Run(Step(p, ts[0], limit, period), ts[1..], limit, period)
  }

  function Fresh(clock: int): Pace { Pace(None, clock, []) }

  /** No period holds more than k: any k and one more take at least a period. */
  predicate AtMostIn(times: seq<int>, k: int, period: int)
    requires k >= 0
  {
    forall i | 0 <= i < |times| - k :: times[i] + period <= times[i + k]
  }

  predicate Upto(times: seq<int>, n: int, t: int)
    requires n <= |times|
  {
    forall i | 0 <= i < n :: times[i] <= t
  }

  predicate Sorted(times: seq<int>) { forall i, j | 0 <= i < j < |times| :: times[i] <= times[j] }

  // ---- The upper bound ----

  /** No window is only looked at: each is started by a use that counts. */
  predicate OnlyUses(ts: seq<Tick>) { forall i | 0 <= i < |ts| :: !ts[i].Look? }

  /** The bound is twice the limit, less s, where s is 1 if each window starts with a use. */
  predicate Steady(p: Pace, limit: nat, period: nat, s: nat)
    requires s <= limit
  {
    && AtMostIn(p.times, 2 * limit - s, period) && Sorted(p.times)
    && Upto(p.times, |p.times|, p.clock)
    && match p.open
       case None => Upto(p.times, |p.times| - limit + s, p.clock - period)
       case Some((start, count)) =>
         && start <= p.clock && s <= count <= limit
         && Upto(p.times, |p.times| - count + s, start)
         && Upto(p.times, |p.times| - count - limit + s, start - period)
  }

  lemma OneMore(times: seq<int>, now: int, k: nat, period: nat)
    requires k > 0 && AtMostIn(times, k, period) && Sorted(times) && Upto(times, |times|, now)
    requires |times| >= k ==> Upto(times, |times| - k + 1, now - period)
    ensures AtMostIn(times + [now], k, period) && Sorted(times + [now]) && Upto(times + [now], |times| + 1, now)
  {
  }

  lemma UptoLess(times: seq<int>, n: int, t: int, m: int, u: int)
    requires n <= |times| && Upto(times, n, t) && m <= n && t <= u
    ensures Upto(times, m, u)
  {
  }

  lemma UptoSnoc(times: seq<int>, n: int, t: int, u: int)
    requires n <= |times| && Upto(times, n, t)
    ensures Upto(times + [u], n, t)
  {
  }

  /** The window a use falls in, before it is counted. */
  lemma CurrentSteady(p: Pace, now: int, limit: nat, period: nat, s: nat)
    requires s <= 1 && s <= limit && Steady(p, limit, period, s) && p.clock <= now
    ensures var n, w := |p.times|, Current(p.open, now, period);
            && w.0 <= now && 0 <= w.1 <= limit
            && (w == (now, 0) || (s <= w.1 && Upto(p.times, n - w.1 + s, w.0)))
            && Upto(p.times, n, now) && Upto(p.times, n - w.1 - limit + s, w.0 - period)
  {
  }

  lemma UseSteady(p: Pace, now: int, limit: nat, period: nat, s: nat)
    requires s <= 1 && s <= limit && Steady(p, limit, period, s) && p.clock <= now
    ensures Steady(Step(p, Use(now), limit, period), limit, period, s)
  {
    hide AtMostIn, Sorted, Current, Upto;
    CurrentSteady(p, now, limit, period, s);
    var n, w := |p.times|, Current(p.open, now, period);
    if w.1 < limit {
      var room := 2 * limit - s;
      UptoLess(p.times, n - w.1 - limit + s, w.0 - period, n - room + 1, now - period);
      OneMore(p.times, now, room, period);
      UptoSnoc(p.times, n - w.1 - limit + s, w.0 - period, now);
      if w == (now, 0) {
        UptoLess(p.times + [now], n + 1, now, n + s, now);
      } else {
        UptoSnoc(p.times, n - w.1 + s, w.0, now);
      }
    }
  }

  lemma OtherSteady(p: Pace, t: Tick, limit: nat, period: nat, s: nat)
    requires s <= 1 && s <= limit && Steady(p, limit, period, s) && p.clock <= t.now
    requires t.Drop? || (t.Look? && s == 0)
    ensures Steady(Step(p, t, limit, period), limit, period, s)
  {
  }

  lemma {:induction false} RunIsSteady(p: Pace, ts: seq<Tick>, limit: nat, period: nat, s: nat)
    requires s <= 1 && s <= limit && Steady(p, limit, period, s) && InOrder(p.clock, ts) && (s == 0 || OnlyUses(ts))
    ensures Steady(Run(p, ts, limit, period), limit, period, s)
    decreases |ts|
  {
    if ts != [] {
      hide Steady;
      if ts[0].Use? { UseSteady(p, ts[0].now, limit, period, s); } else { OtherSteady(p, ts[0], limit, period, s); }
      assert s > 0 ==> OnlyUses(ts[1..]);
      RunIsSteady(Step(p, ts[0], limit, period), ts[1..], limit, period, s);
    }
  }

  lemma MoreRoom(times: seq<int>, j: nat, k: nat, period: int)
    requires AtMostIn(times, j, period) && Sorted(times) && j <= k
    ensures AtMostIn(times, k, period)
  {
    forall i | 0 <= i < |times| - k ensures times[i] + period <= times[i + k] {
      assert times[i] + period <= times[i + j];
      if j < k { assert times[i + j] <= times[i + k]; }
    }
  }

  // ---- Runs that reach it ----

  function Uses(n: nat, now: int): seq<Tick> { seq(n, _ => Use(now)) }

  function Repeat(n: nat, now: int): seq<int> { seq(n, _ => now) }

  lemma RunConcat(p: Pace, a: seq<Tick>, b: seq<Tick>, limit: nat, period: nat)
    ensures Run(p, a + b, limit, period) == Run(Run(p, a, limit, period), b, limit, period)
    decreases |a|
  {
    if a == [] {
      assert a + b == b;
    } else {
      assert (a + b)[1..] == a[1..] + b;
      RunConcat(Step(p, a[0], limit, period), a[1..], b, limit, period);
    }
  }

  /** Uses inside a window that has room all pass. */
  lemma {:induction false} Burst(p: Pace, n: nat, now: int, limit: nat, period: nat)
    requires n > 0 && Current(p.open, now, period).1 + n <= limit
    requires period > 0 && Current(p.open, now, period).0 <= now < Current(p.open, now, period).0 + period
    ensures var w := Current(p.open, now, period);
            Run(p, Uses(n, now), limit, period) == Pace(Some((w.0, w.1 + n)), now, p.times + Repeat(n, now))
    decreases n
  {
    var w := Current(p.open, now, period);
    var next := Step(p, Use(now), limit, period);
    assert Uses(n, now)[0] == Use(now) && Uses(n, now)[1..] == Uses(n - 1, now);
    if n > 1 {
      Burst(next, n - 1, now, limit, period);
      assert p.times + [now] + Repeat(n - 1, now) == p.times + Repeat(n, now);
    } else {
      assert Repeat(1, now) == [now];
    }
  }

  lemma {:induction false} UsesInOrder(from: int, n: nat, now: int, rest: seq<Tick>)
    requires from <= now && InOrder(now, rest)
    ensures InOrder(from, Uses(n, now) + rest)
    decreases n
  {
    if n == 0 {
      assert Uses(0, now) + rest == rest;
    } else {
      assert (Uses(n, now) + rest)[1..] == Uses(n - 1, now) + rest;
      UsesInOrder(now, n - 1, now, rest);
    }
  }

  /**
   The window is started by a look, or by one use; the rest of its uses come just before it is a
   period old, and a full window follows at once.
   */
  function Crowd(clock: int, limit: nat, period: nat, looks: bool): seq<Tick>
    requires limit > 0
  {
    var late := clock + period - 1;
    (if looks then [Look(clock)] + Uses(limit, late) else [Use(clock)] + Uses(limit - 1, late)) + Uses(limit, late + 1)
  }

  function CrowdTimes(clock: int, limit: nat, period: nat, looks: bool): seq<int>
    requires limit > 0
  {
    var late := clock + period - 1;
    (if looks then Repeat(limit, late) else [clock] + Repeat(limit - 1, late)) + Repeat(limit, late + 1)
  }

  lemma LateBurst(p: Pace, n: nat, clock: int, limit: nat, period: nat)
    requires limit > 0 && period >= 2 && p.open.Some? && p.open.value.0 == clock && p.open.value.1 + n == limit
    ensures Run(p, Uses(n, clock + period - 1), limit, period).times == p.times + Repeat(n, clock + period - 1)
    ensures Run(p, Uses(n, clock + period - 1), limit, period).open == Some((clock, limit))
  {
    if n == 0 {
      assert Uses(0, clock + period - 1) == [] && Repeat(0, clock + period - 1) == [];
    } else {
      Burst(p, n, clock + period - 1, limit, period);
    }
  }

  lemma CrowdPasses(clock: int, limit: nat, period: nat, looks: bool)
    requires limit > 0 && period >= 2
    ensures InOrder(clock, Crowd(clock, limit, period, looks))
    ensures looks || OnlyUses(Crowd(clock, limit, period, looks))
    ensures Run(Fresh(clock), Crowd(clock, limit, period, looks), limit, period).times
         == CrowdTimes(clock, limit, period, looks)
  {
    var late := clock + period - 1;
    var first := if looks then Look(clock) else Use(clock);
    var n := if looks then limit else limit - 1;
    var p1 := Step(Fresh(clock), first, limit, period);
    var last := Uses(limit, late + 1);
    UsesInOrder(late, limit, late + 1, []);
    assert last + [] == last;
    UsesInOrder(clock, n, late, last);
    var rest := Uses(n, late) + last;
    assert Crowd(clock, limit, period, looks) == [first] + rest;
    assert ([first] + rest)[1..] == rest;
    RunConcat(p1, Uses(n, late), last, limit, period);
    LateBurst(p1, n, clock, limit, period);
    var p2 := Run(p1, Uses(n, late), limit, period);
    Burst(p2, limit, late + 1, limit, period);
    assert CrowdTimes(clock, limit, period, looks) == p1.times + Repeat(n, late) + Repeat(limit, late + 1);
  }

  /** Every run, on clock readings in order, keeps k; s restricts it to runs whose windows start with a use. */
  ghost predicate Keeps(clock: int, limit: nat, period: nat, k: nat, s: nat) {
    forall ts | InOrder(clock, ts) && (s == 0 || OnlyUses(ts)) ::
      AtMostIn(Run(Fresh(clock), ts, limit, period).times, k, period)
  }

  /**
   For every limit and period of two units or more: no period of any run holds more than k exactly
   when k is at least twice the limit; one less if every window is started by a use that counts.
   */
  lemma TwiceIsExact(clock: int, limit: nat, period: nat, k: nat, s: nat)
    requires limit > 0 && period >= 2 && s <= 1
    ensures Keeps(clock, limit, period, k, s) <==> k >= 2 * limit - s
  {
    if k >= 2 * limit - s {
      forall ts | InOrder(clock, ts) && (s == 0 || OnlyUses(ts))
        ensures AtMostIn(Run(Fresh(clock), ts, limit, period).times, k, period)
      {
        RunIsSteady(Fresh(clock), ts, limit, period, s);
        MoreRoom(Run(Fresh(clock), ts, limit, period).times, 2 * limit - s, k, period);
      }
    } else {
      var looks := s == 0;
      var ts := Crowd(clock, limit, period, looks);
      CrowdPasses(clock, limit, period, looks);
      Crowded(clock, limit, period, looks, k);
      assert InOrder(clock, ts) && !AtMostIn(Run(Fresh(clock), ts, limit, period).times, k, period);
    }
  }

  lemma Crowded(clock: int, limit: nat, period: nat, looks: bool, k: nat)
    requires limit > 0 && period >= 2 && k < 2 * limit - (if looks then 0 else 1)
    ensures !AtMostIn(CrowdTimes(clock, limit, period, looks), k, period)
  {
    var times := CrowdTimes(clock, limit, period, looks);
    var i := if looks then 0 else 1;
    assert times[i] >= clock + period - 1 && times[i + k] <= clock + period;
  }

  // ---- When the limit itself is kept ----

  /** A use or a look that starts a new window. */
  predicate Restarts(p: Pace, t: Tick, period: int) {
    !t.Drop? && (p.open.None? || t.now - p.open.value.0 >= period)
  }

  /** Nothing passed in the period before. */
  predicate Quiet(p: Pace, now: int, period: int) { Upto(p.times, |p.times|, now - period) }

  /** Every window of the run starts after a quiet period. */
  predicate QuietStarts(p: Pace, ts: seq<Tick>, limit: nat, period: nat)
    decreases |ts|
  {
    ts == [] || ((Restarts(p, ts[0], period) ==> Quiet(p, ts[0].now, period))
                 && QuietStarts(Step(p, ts[0], limit, period), ts[1..], limit, period))
  }

  /** The limit is kept so far, and what came before the window is out of reach of its uses. */
  predicate Apart(p: Pace, limit: nat, period: nat) {
    && AtMostIn(p.times, limit, period)
    && (p.open.Some? ==>
          var (start, count) := p.open.value;
          && start <= p.clock && 0 <= count <= limit && count <= |p.times|
          && Upto(p.times, |p.times| - count, start - period))
  }

  lemma StepApart(p: Pace, t: Tick, limit: nat, period: nat)
    requires Apart(p, limit, period) && p.clock <= t.now && (Restarts(p, t, period) ==> Quiet(p, t.now, period))
    ensures Apart(Step(p, t, limit, period), limit, period)
  {
    var after := Step(p, t, limit, period);
    if |after.times| > |p.times| {
      var i := |p.times| - limit;
      if i >= 0 { assert p.times[i] <= t.now - period; }
    }
  }

  /** Windows that start after a quiet period keep the limit in every period. */
  lemma {:induction false} QuietKeepsLimit(p: Pace, ts: seq<Tick>, limit: nat, period: nat)
    requires Apart(p, limit, period) && InOrder(p.clock, ts) && QuietStarts(p, ts, limit, period)
    ensures AtMostIn(Run(p, ts, limit, period).times, limit, period)
    decreases |ts|
  {
    if ts != [] {
      StepApart(p, ts[0], limit, period);
      hide Apart, Quiet;
      QuietKeepsLimit(Step(p, ts[0], limit, period), ts[1..], limit, period);
    }
  }

  /** Uses from now on that stay within one period of it. */
  predicate Soon(us: seq<Tick>, now: int, period: nat) {
    InOrder(now, us) && forall i | 0 <= i < |us| :: us[i].Use? && us[i].now < now + period
  }

  lemma SoonIsQuiet(p: Pace, us: seq<Tick>, now: int, limit: nat, period: nat)
    requires Soon(us, now, period) && p.open.None? && Quiet(p, now, period)
    ensures QuietStarts(p, us, limit, period)
  {
    if us != [] {
      assert Quiet(p, us[0].now, period);
      Started(Step(p, us[0], limit, period), us[1..], now, limit, period);
    }
  }

  /** Inside a period of a window's start it is not started again. */
  lemma {:induction false} Started(p: Pace, us: seq<Tick>, now: int, limit: nat, period: nat)
    requires p.open.Some? && now <= p.open.value.0
    requires forall i | 0 <= i < |us| :: us[i].Use? && us[i].now < now + period
    ensures QuietStarts(p, us, limit, period)
    decreases |us|
  {
    if us != [] { Started(Step(p, us[0], limit, period), us[1..], now, limit, period); }
  }

  /**
   At the moment a window would start again: whatever uses come within a period, the limit is
   kept, exactly when nothing passed in the period before.
   */
  lemma QuietIsExact(p: Pace, now: int, limit: nat, period: nat)
    requires limit > 0 && period > 0 && p.clock <= now && Restarts(p, Use(now), period)
    requires Sorted(p.times) && AtMostIn(p.times, limit, period)
    ensures (forall us | Soon(us, now, period) :: AtMostIn(Run(p, us, limit, period).times, limit, period))
        <==> Quiet(p, now, period)
  {
    if Quiet(p, now, period) {
      forall us | Soon(us, now, period) ensures AtMostIn(Run(p, us, limit, period).times, limit, period) {
        var idle := p.(open := None, clock := now);
        SameRun(p, us, now, limit, period);
        SoonIsQuiet(idle, us, now, limit, period);
        QuietKeepsLimit(idle, us, limit, period);
      }
    } else {
      var us := Uses(limit, now);
      UsesInOrder(now, limit, now, []);
      assert us + [] == us;
      assert Soon(us, now, period);
      Burst(p, limit, now, limit, period);
      var times := Run(p, us, limit, period).times;
      var n := |p.times|;
      assert p.times[n - 1] > now - period by {
        var i :| 0 <= i < n && p.times[i] > now - period;
        if i < n - 1 { assert p.times[i] <= p.times[n - 1]; }
      }
      assert times[n - 1] == p.times[n - 1] && times[n - 1 + limit] == now;
      assert !AtMostIn(times, limit, period);
    }
  }

  /** A window that is about to start again is as good as none. */
  lemma SameRun(p: Pace, us: seq<Tick>, now: int, limit: nat, period: nat)
    requires Soon(us, now, period) && Restarts(p, Use(now), period)
    ensures Run(p.(open := None, clock := now), us, limit, period).times == Run(p, us, limit, period).times
  {
    if us != [] { assert Current(p.open, us[0].now, period) == Current(None, us[0].now, period); }
  }
}
