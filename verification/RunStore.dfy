/**
 The transactions on the stored run queue, proved to be the steps the queue and
 limit modules reason about, and the loop that shortens a result until it fits.
 */
module RunStore {
  import opened Base
  import opened RollingDay
  import Utf8
  import RunQueue
  import RunLimits

  datatype RunState = RunState(running: Option<string>, queued: seq<string>, recent: map<string, seq<int>>)

  /** The inner loop of pruneRecent. */
  method KeepRecent(times: seq<int>, now: int) returns (keep: seq<int>)
    ensures keep == Recent(times, now)
  {
    keep := [];
    for i := 0 to |times|
      invariant keep == Recent(times[..i], now)
    {
      assert times[..i + 1][..i] == times[..i];
      if times[i] > now - DAY { keep := keep + [times[i]]; }
    }
    assert times[..|times|] == times;
  }

  /** pruneRecent: controllers in any order. */
  method PruneRecent(recent: map<string, seq<int>>, now: int) returns (kept: map<string, seq<int>>)
    ensures kept == RunLimits.Pruned(recent, now)
  {
    kept := recent;
    var todo := recent.Keys;
    while todo != {}
      invariant todo <= recent.Keys
      invariant forall p :: p in kept <==> p in recent && (p in todo || Recent(recent[p], now) != [])
      invariant forall p | p in kept :: kept[p] == if p in todo then recent[p] else Recent(recent[p], now)
    {
      var p :| p in todo;
      var keep := KeepRecent(recent[p], now);
      hide Recent;
      kept := if keep == [] then kept - {p} else kept[p := keep];
      todo := todo - {p};
    }
  }

  /** RouteTx after the scope checks: `allowed` is their outcome. */
  method Route(st: RunState, job: string, peer: string, allowed: bool, now: int) returns (after: RunState, ok: bool)
    ensures var room := |st.queued| < 8;
            ok <==> allowed && RunLimits.Accepts(st.recent, RunLimits.Route(peer, room, now))
    ensures !ok ==> after == st
    ensures ok ==> after.running == st.running && after.queued == st.queued + [job]
    ensures ok ==> var kept := RunLimits.Pruned(st.recent, now);
                   after.recent == kept[peer := RunLimits.Of(kept, peer) + [now]]
  {
    if !allowed { return st, false; }
    var kept := PruneRecent(st.recent, now);
    if |st.queued| >= RunQueue.MAX_QUEUED || |RunLimits.Of(kept, peer)| >= RunLimits.MAX_PER_DAY { return st, false; }
    after := RunState(st.running, st.queued + [job], kept[peer := RunLimits.Of(kept, peer) + [now]]);
    ok := true;
  }

  /** The queued jobs that are no longer allowed: each gets a cancel. */
  function Refused(queued: seq<string>, perms: RunQueue.Perms): seq<string> {
    if queued == [] then []
    else
      var j := queued[|queued| - 1];
      Refused(queued[..|queued| - 1], perms) + if j in perms then [] else [j]
  }

  /** The loop of take over the queue: who stays, who is dropped, who is first. */
  method Sort(queued: seq<string>, perms: RunQueue.Perms, free: bool)
    returns (keep: seq<string>, dropped: seq<string>, next: Option<string>)
    ensures (if next.Some? then [next.value] else []) + keep == RunQueue.Allowed(queued, perms)
    ensures next.Some? <==> free && RunQueue.Allowed(queued, perms) != []
    ensures dropped == Refused(queued, perms)
  {
    keep, dropped, next := [], [], None;
    for i := 0 to |queued|
      invariant (if next.Some? then [next.value] else []) + keep == RunQueue.Allowed(queued[..i], perms)
      invariant next.Some? <==> free && RunQueue.Allowed(queued[..i], perms) != []
      invariant dropped == Refused(queued[..i], perms)
    {
      var j := queued[i];
      ghost var was := RunQueue.Allowed(queued[..i], perms);
      assert queued[..i + 1] == queued[..i] + [j];
      AllowedSnoc(queued[..i], j, perms);
      hide RunQueue.Allowed, Refused;
      if j !in perms {
        dropped := dropped + [j];
      } else if free && next.None? {
        assert was == keep == [];
        next := Some(j);
      } else {
        assert (if next.Some? then [next.value] else []) + (keep + [j]) == was + [j];
        keep := keep + [j];
      }
    }
    assert queued[..|queued|] == queued;
  }

  lemma AllowedSnoc(q: seq<string>, j: string, perms: RunQueue.Perms)
    ensures RunQueue.Allowed(q + [j], perms) == RunQueue.Allowed(q, perms) + if j in perms then [j] else []
    ensures Refused(q + [j], perms) == Refused(q, perms) + if j in perms then [] else [j]
  {
    assert (q + [j])[..|q|] == q;
  }

  /**
   take: `executing` is whether a command runs now. With start set it is the loop's step,
   without it a sweep's; every permission check in it worked.
   */
  method Take(st: RunState, perms: RunQueue.Perms, start: bool, executing: bool)
    returns (after: RunState, next: Option<string>, verdict: RunQueue.Verdict, dropped: seq<string>)
    ensures after.recent == st.recent
    ensures start && !executing ==>
              var s := RunQueue.Started(RunQueue.EMPTY.(perms := perms, running := st.running, queued := st.queued));
              && after.queued == s.queued && after.running == s.running
              && next == (if s.loop.Taken? then Some(s.loop.job) else None) && verdict.Nothing?
    ensures !start ==> after.running == st.running && after.queued == RunQueue.Allowed(st.queued, perms) && next.None?
    ensures !start ==> verdict == RunQueue.Judge(RunQueue.EMPTY.(perms := perms, running := st.running))
    ensures dropped == Refused(st.queued, perms)
  {
    var running := if start && st.running.Some? && !executing then None else st.running;
    verdict := RunQueue.Nothing;
    if running.Some? {
      var j := running.value;
      verdict := if j in perms then RunQueue.Keep(j, perms[j]) else RunQueue.Stop(j);
    }
    var keep;
    keep, dropped, next := Sort(st.queued, perms, start && running.None?);
    hide RunQueue.Allowed;
    ghost var all := RunQueue.Allowed(st.queued, perms);
    if next.Some? { assert all == [next.value] + keep; }
    after := RunState(if next.Some? then next else running, keep, st.recent);
  }

  // ---- The runner ----

  /** The stored state and the command running now. */
  class Runner {
    var st: RunState
    var cur: Option<RunQueue.Cur>

    constructor ()
      ensures st == RunState(None, [], map[]) && cur.None?
    {
      st, cur := RunState(None, [], map[]), None;
    }

    function Running(): Option<string>
      reads this
    {
      if cur.Some? then Some(cur.value.job) else None
    }

    /** stopSession: only the command of that session is stopped. */
    method StopSession(session: string)
      modifies this`cur
      ensures cur == RunQueue.Apply(old(cur), Some(session), RunQueue.Failed)
      ensures cur == RunQueue.Apply(old(cur), None, RunQueue.Stop(session))
    {
      if cur.Some? && cur.value.job == session { cur := Some(cur.value.(stopped := true)); }
    }

    /** stillRunning: a session that now stands for something else is stopped too. */
    method StillRunning(session: string, plan: RunQueue.Plan)
      modifies this`cur
      ensures cur == RunQueue.Apply(old(cur), None, RunQueue.Keep(session, plan))
    {
      if cur.None? || cur.value.job != session { return; }
      if cur.value.plan != plan { cur := Some(cur.value.(stopped := true)); }
    }

    /** sweep, from its look at the running session to its verdict on it; dbOk is whether take worked. */
    method Sweep(perms: RunQueue.Perms, dbOk: bool) returns (dropped: seq<string>)
      modifies this
      ensures dbOk ==>
                && cur == RunQueue.Apply(old(cur), old(Running()),
                                         RunQueue.Judge(RunQueue.EMPTY.(perms := perms, running := old(st).running)))
                && st == old(st).(queued := RunQueue.Allowed(old(st).queued, perms))
                && dropped == Refused(old(st).queued, perms)
      ensures !dbOk ==> cur == RunQueue.Apply(old(cur), old(Running()), RunQueue.Failed)
      ensures !dbOk ==> st == old(st) && dropped == []
    {
      var session := Running();
      dropped := [];
      if !dbOk {
        if session.Some? { StopSession(session.value); }
        return;
      }
      var after, next, verdict, gone := Take(st, perms, false, cur.Some?);
      st, dropped := after, gone;
      match verdict
      case Stop(j) => StopSession(j);
      case Keep(j, p) => StillRunning(j, p);
      case _ =>
    }

    /** finish. */
    method Finish(dbOk: bool)
      modifies this`st
      ensures st == if dbOk then old(st).(running := None) else old(st)
    {
      if dbOk { st := st.(running := None); }
    }

    /** recoverAfterRestart: what was running is reported once, what was queued is cancelled, nothing runs again. */
    method Recover(perms: RunQueue.Perms) returns (interrupted: Option<string>, cancelled: seq<string>)
      modifies this`st
      ensures st == old(st).(running := None, queued := [])
      ensures interrupted == if old(st).running.Some? && old(st).running.value in perms then old(st).running else None
      ensures var gone := old(st).running.Some? && interrupted.None?;
              cancelled == (if gone then [old(st).running.value] else []) + old(st).queued
    {
      interrupted, cancelled := None, [];
      if st.running.Some? {
        if st.running.value in perms { interrupted := st.running; } else { cancelled := [st.running.value]; }
      }
      cancelled := cancelled + st.queued;
      st := st.(running := None, queued := []);
    }
  }

  // ---- Results that are too large ----

  /** The text t is s without its first quarter and the rest of the rune that was cut; too little is dropped whole. */
  predicate IsTrim(s: bytes, t: bytes) {
    && |t| <= |s| && t == s[|s| - |t|..]
    && if |s| < 4 then t == []
       else
         && |s| / 4 <= |s| - |t| && (t != [] ==> !Utf8.Continuation(t[0]))
         && forall i | |s| / 4 <= i < |s| - |t| :: Utf8.Continuation(s[i])
  }

  /** trimFront: drop the first quarter, up to the next rune. */
  method TrimFront(s: bytes) returns (t: bytes)
    ensures IsTrim(s, t) && (s != [] ==> |t| < |s|)
    ensures Utf8.Valid(s) ==> Utf8.Valid(t)
  {
    var cut := |s| / 4;
    if cut == 0 { return []; }
    while cut < |s| && Utf8.Continuation(s[cut])
      invariant |s| / 4 <= cut <= |s| && forall i | |s| / 4 <= i < cut :: Utf8.Continuation(s[i])
    {
      cut := cut + 1;
    }
    if Utf8.Valid(s) { ValidSuffix(s, cut); }
    t := s[cut..];
  }

  /** A cut between runes leaves valid text valid. */
  lemma {:induction false} ValidSuffix(b: bytes, k: nat)
    requires Utf8.Valid(b) && k <= |b| && (k == |b| || !Utf8.Continuation(b[k]))
    ensures Utf8.Valid(b[k..])
    decreases |b|
  {
    if k == 0 {
      assert b[0..] == b;
    } else {
      var w := Utf8.DecodeFirst(b).width;
      assert k >= w;
      assert b[w..][k - w..] == b[k..];
      ValidSuffix(b[w..], k - w);
    }
  }

  /** The most trims an output of n bytes can take. */
  function Trims(n: nat): nat { if n == 0 then 0 else if n < 4 then 1 else 1 + Trims(n - n / 4) }

  function Log2(n: nat): nat { if n < 2 then 0 else 1 + Log2(n / 2) }

  lemma {:induction false} TrimsMonotone(m: nat, n: nat)
    requires m <= n
    ensures Trims(m) <= Trims(n)
    decreases n
  {
    if n >= 4 && m >= 4 { TrimsMonotone(m - m / 4, n - n / 4); }
    if n >= 4 && 0 < m < 4 { TrimsMonotone(1, n - n / 4); }
  }

  lemma {:induction false} Log2Monotone(m: nat, n: nat)
    requires m <= n
    ensures Log2(m) <= Log2(n)
    decreases n
  {
    if m >= 2 { Log2Monotone(m / 2, n / 2); }
  }

  lemma SomeTrims()
    ensures Trims(3) == 1 && Trims(7) == 5 && Trims(22) == 9
  {
    assert Trims(4) == 1 + Trims(3);
    assert Trims(5) == 1 + Trims(4);
    assert Trims(6) == 1 + Trims(5);
    assert Trims(8) == 1 + Trims(6);
    assert Trims(10) == 1 + Trims(8);
    assert Trims(13) == 1 + Trims(10);
    assert Trims(17) == 1 + Trims(13);
  }

  lemma SmallTrims(n: nat)
    requires n < 23
    ensures Trims(n) <= 3 * Log2(n) + 1
  {
    SomeTrims();
    assert Log2(4) == 2 && Log2(8) == 3;
    TrimsMonotone(n, if n < 4 then 3 else if n < 8 then 7 else 22);
    if n >= 8 { Log2Monotone(8, n); } else if n >= 4 { Log2Monotone(4, n); }
    hide Trims, Log2;
  }

  /** Three trims at least halve what is left. */
  lemma {:induction false} TrimsAreFew(n: nat)
    ensures Trims(n) <= 3 * Log2(n) + 1
    decreases n
  {
    if n < 23 {
      SmallTrims(n);
    } else {
      var a := n - n / 4;
      var b := a - a / 4;
      var c := b - b / 4;
      assert Trims(n) == 1 + Trims(a) && Trims(a) == 1 + Trims(b) && Trims(b) == 1 + Trims(c);
      assert c <= n / 2;
      TrimsMonotone(c, n / 2);
      TrimsAreFew(n / 2);
    }
  }

  /**
   The retry loop of execute: it ends, having sent a tail of the output that is not too large, or
   nothing, after a number of tries logarithmic in the length of the output.
   */
  method Submit(output: bytes, tooLarge: bytes -> bool) returns (sent: bytes, tries: nat)
    ensures sent == [] || !tooLarge(sent)
    ensures |sent| <= |output| && sent == output[|output| - |sent|..]
    ensures sent == output || exists longer: bytes :: tooLarge(longer) && IsTrim(longer, sent)
    ensures Utf8.Valid(output) ==> Utf8.Valid(sent)
    ensures tries <= 3 * Log2(|output|) + 2
  {
    sent, tries := output, 1;
    while tooLarge(sent) && sent != []
      invariant |sent| <= |output| && sent == output[|output| - |sent|..]
      invariant sent == output || exists longer: bytes :: tooLarge(longer) && IsTrim(longer, sent)
      invariant Utf8.Valid(output) ==> Utf8.Valid(sent)
      invariant tries + Trims(|sent|) <= 1 + Trims(|output|)
      decreases |sent|
    {
      var t := TrimFront(sent);
      assert t == output[|output| - |t|..] && tooLarge(sent) && IsTrim(sent, t);
      if |sent| >= 4 { TrimsMonotone(|t|, |sent| - |sent| / 4); }
      sent, tries := t, tries + 1;
    }
    TrimsAreFew(|output|);
  }
}
