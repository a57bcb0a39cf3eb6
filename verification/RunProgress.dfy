/**
 A command that stays allowed is left alone: it is told to stop only after a
 sweep found its permission gone or could not read, and until then it starts.
 */
module RunProgress {
  import opened Base
  import opened RunQueue

  // ---- Jobs that were taken do not come back ----

  /** The job was queued once and is queued no more. */
  predicate Past(st: State, j: string) { j in st.routed && j !in st.queued }

  /** The job a verdict is about. */
  function About(v: Verdict): Option<string> {
    match v
    case Stop(j) => Some(j)
    case Keep(j, _) => Some(j)
    case _ => None
  }

  /** What is marked running, and what a sweep remembers, is past. */
  predicate Remembered(st: State) {
    && (st.running.Some? ==> Past(st, st.running.value))
    && (st.cur.Some? ==> Past(st, st.cur.value.job))
    && (!st.loop.Idle? ==> Past(st, st.loop.job))
    && (st.sweep.Some? && st.sweep.value.session.Some? ==> Past(st, st.sweep.value.session.value))
    && (st.sweep.Some? && st.sweep.value.verdict.Some? && About(st.sweep.value.verdict.value).Some? ==>
          Past(st, About(st.sweep.value.verdict.value).value))
  }

  lemma PastStays(st: State, e: Event, j: string)
    requires Once(st) && Step(st, e).Some? && Past(st, j)
    ensures Past(Step(st, e).value, j)
  {
    AllowedPart(st.queued, st.perms);
    hide Allowed;
    var keep := Allowed(st.queued, st.perms);
    assert forall k | k in keep[if keep == [] then 0 else 1..] :: k in keep;
  }

  lemma TakenIsPast(st: State)
    requires Once(st) && st.loop.Idle? && Started(st).loop.Taken?
    ensures Past(Started(st), Started(st).loop.job) && Started(st).loop.job in st.queued
    ensures Started(st).running == Some(Started(st).loop.job)
  {
    AllowedPart(st.queued, st.perms);
    hide Allowed;
    var keep := Allowed(st.queued, st.perms);
    assert keep[0] in keep;
  }

  lemma StepRemembered(st: State, e: Event)
    requires Once(st) && LoopOk(st) && Remembered(st) && Step(st, e).Some?
    ensures Remembered(Step(st, e).value)
  {
    var after := Step(st, e).value;
    forall j | Past(st, j) ensures Past(after, j) { PastStays(st, e, j); }
    hide Once, Past;
    if e.Take? && e.dbOk {
      if Started(st).loop.Taken? { TakenIsPast(st); }
      TakeShape(st);
      hide Started;
    } else {
      hide Started, Allowed;
    }
  }

  lemma TakeShape(st: State)
    requires st.loop.Idle?
    ensures var after := Started(st);
            && after.sweep == st.sweep && after.cur == st.cur && after.perms == st.perms
            && if after.loop.Idle? then after.running.None?
               else after.loop.Taken? && after.running == Some(after.loop.job)
  {
    hide Allowed;
  }

  // ---- Why a command is told to stop ----

  /** A sweep reads that the loop's job is not allowed as it was taken, or fails after it was set to run. */
  predicate Grounds(st: State, e: Event) {
    && e.SweepRead? && !st.loop.Idle?
    && if e.dbOk then Revoked(st, st.loop.job, st.loop.plan)
       else st.sweep.Some? && st.sweep.value.session == Some(st.loop.job)
  }

  /** Since the loop took the job it has, a sweep had grounds to stop it. */
  predicate HadGrounds(es: seq<Event>) {
    if es == [] then false
    else
      var before, e := Run(EMPTY, es[..|es| - 1]), es[|es| - 1];
      if before.None? || e.Take? then false else HadGrounds(es[..|es| - 1]) || Grounds(before.value, e)
  }

  /** The verdict, applied, would stop the loop's job. */
  predicate Threatens(st: State, s: Sweep) {
    !st.loop.Idle? &&
    match s.verdict
    case Some(Stop(j)) => j == st.loop.job
    case Some(Keep(j, q)) => j == st.loop.job && q != st.loop.plan
    case Some(Failed) => s.session == Some(st.loop.job)
    case _ => false
  }

  /** A command that was told to stop, or is about to be, was told so with grounds. */
  predicate Justified(st: State, grounds: bool) {
    && (Signalled(st) ==> grounds)
    && (st.sweep.Some? && Threatens(st, st.sweep.value) ==> grounds)
  }

  lemma TakeJustified(st: State)
    requires Once(st) && LoopOk(st) && Remembered(st) && st.loop.Idle?
    ensures Justified(Started(st), false)
  {
    TakeShape(st);
    if Started(st).loop.Taken? { TakenIsPast(st); }
    hide Started, Once;
  }

  lemma StepJustified(st: State, e: Event, grounds: bool)
    requires Once(st) && LoopOk(st) && Remembered(st) && Justified(st, grounds) && Step(st, e).Some?
    ensures Justified(Step(st, e).value, if e.Take? then false else grounds || Grounds(st, e))
  {
    hide Once, Remembered, Allowed;
    if e.Take? && e.dbOk { TakeJustified(st); }
    hide Started;
  }

  lemma {:induction false} RunJustified(es: seq<Event>)
    requires Run(EMPTY, es).Some?
    ensures var st := Run(EMPTY, es).value;
            LoopOk(st) && Once(st) && NeverTwice(st) && Remembered(st) && Justified(st, HadGrounds(es))
    decreases |es|
  {
    RevocationBeatsEveryRace(es, "", "");
    JobsRunAtMostOnce(es);
    if es != [] {
      var init, e := es[..|es| - 1], es[|es| - 1];
      RunJustified(init);
      var before := Run(EMPTY, init).value;
      hide LoopOk, Once, NeverTwice, Remembered, Justified, Step, WatchOk;
      StepRemembered(before, e);
      StepJustified(before, e, HadGrounds(init));
    }
  }

  /** On every run: a command told to stop was found revoked, or could not be checked, since it was taken. */
  lemma StoppedForCause(es: seq<Event>)
    requires Run(EMPTY, es).Some? && Signalled(Run(EMPTY, es).value)
    ensures HadGrounds(es)
  {
    RunJustified(es);
    hide Run, HadGrounds;
  }

  /** On every run: a checked command with no grounds against it starts, once. */
  lemma AllowedCommandStarts(es: seq<Event>)
    requires Run(EMPTY, es).Some? && Run(EMPTY, es).value.loop.Checked? && !HadGrounds(es)
    ensures var st := Run(EMPTY, es).value;
            var after := Step(st, Launch(true));
            && after == Some(st.(loop := Executing(st.loop.job, st.loop.plan),
                                 started := st.started + multiset{st.loop.job}))
            && after.value.started[st.loop.job] == 1
  {
    RunJustified(es);
    hide Run, HadGrounds;
  }

  // ---- From the queue to the command ----

  const PROMPT := [Take(true), Open(true, true), SetCur, SweepBegin(true), SweepRead(true), SweepEnd, Launch(true)]

  lemma RunSnoc(st: State, es: seq<Event>, mid: State, e: Event)
    requires Run(st, es) == Some(mid)
    ensures Run(st, es + [e]) == Step(mid, e)
  {
    hide Step;
    assert (es + [e])[..|es|] == es;
  }

  lemma FirstStep(st: State, e: Event)
    ensures Run(st, [e]) == Step(st, e)
  {
    hide Step;
    assert [e][..0] == [];
  }

  lemma {:induction false} AllowedIn(q: seq<string>, perms: Perms)
    ensures forall j | j in Allowed(q, perms) :: j in perms
  {
    if q != [] { AllowedIn(q[..|q| - 1], perms); }
  }

  /** The allowed jobs keep their order. */
  lemma {:induction false} AllowedInOrder(q: seq<string>, perms: Perms, x: nat, y: nat) returns (i: nat, k: nat)
    requires Distinct(q) && x < y < |q| && q[x] in perms && q[y] in perms
    ensures i < k < |Allowed(q, perms)| && Allowed(q, perms)[i] == q[x] && Allowed(q, perms)[k] == q[y]
    decreases |q|
  {
    var init := q[..|q| - 1];
    assert Distinct(init);
    var a := Allowed(init, perms);
    if y < |init| {
      i, k := AllowedInOrder(init, perms, x, y);
    } else {
      AllowedPart(init, perms);
      assert init[x] in init;
      i :| 0 <= i < |a| && a[i] == q[x];
      k := |a|;
    }
  }

  lemma FirstAllowed(st: State)
    requires Allowed(st.queued, st.perms) != [] && st.loop.Idle?
    ensures var j := Allowed(st.queued, st.perms)[0];
            && j in st.perms
            && Step(st, Take(true)) == Some(st.(running := Some(j), queued := Allowed(st.queued, st.perms)[1..],
                                                loop := Taken(j, st.perms[j])))
  {
    AllowedIn(st.queued, st.perms);
    hide Allowed;
    assert Allowed(st.queued, st.perms)[0] in Allowed(st.queued, st.perms);
  }

  /** Taken, its session open, set to run, checked by the loop's own sweep: a permitted job starts as it was taken. */
  lemma PermittedRuns(st: State)
    requires st.loop.Idle? && st.cur.None? && st.sweep.None? && Allowed(st.queued, st.perms) != []
    ensures var j := Allowed(st.queued, st.perms)[0];
            && j in st.perms && Run(st, PROMPT).Some?
            && var after := Run(st, PROMPT).value;
               && after.loop == Executing(j, st.perms[j]) && after.started == st.started + multiset{j}
               && after.cur == Some(Cur(j, st.perms[j], false)) && after.running == Some(j)
  {
    FirstAllowed(st);
    hide Run, Allowed;
    var j := Allowed(st.queued, st.perms)[0];
    var p := st.perms[j];
    var a := st.(running := Some(j), queued := Allowed(st.queued, st.perms)[1..], loop := Taken(j, p));
    var b := a.(loop := Ready(j, p));
    var c := b.(loop := Waiting(j, p), cur := Some(Cur(j, p, false)));
    var d := c.(sweep := Some(Sweep(true, Some(j), None)));
    var e := d.(sweep := Some(Sweep(true, Some(j), Some(Keep(j, p)))), queued := Allowed(d.queued, d.perms));
    var f := e.(sweep := None, loop := Checked(j, p));
    var es := [Take(true)];
    FirstStep(st, Take(true));
    RunSnoc(st, es, a, Open(true, true));
    RunSnoc(st, es + [Open(true, true)], b, SetCur);
    RunSnoc(st, es + [Open(true, true)] + [SetCur], c, SweepBegin(true));
    hide Started;
    es := es + [Open(true, true)] + [SetCur] + [SweepBegin(true)];
    RunSnoc(st, es, d, SweepRead(true));
    RunSnoc(st, es + [SweepRead(true)], e, SweepEnd);
    RunSnoc(st, es + [SweepRead(true)] + [SweepEnd], f, Launch(true));
    assert es + [SweepRead(true)] + [SweepEnd] + [Launch(true)] == PROMPT;
  }
}
