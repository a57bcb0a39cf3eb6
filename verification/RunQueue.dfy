/**
 The helper's run queue: a stored queue, one executing loop, and sweeps that
 re-check permissions in the background. A step is one transaction, one section
 under a mutex, or the start or end of the command; permissions change and the
 daemon dies at any moment. The theorems follow one command, a session and what
 it was to run, and ask what becomes of it once it is no longer allowed.
 */
module RunQueue {
  import opened Base

  const MAX_QUEUED := 8

  /** What a session may run now: program, arguments, environment and directory, compared as a whole. */
  type Plan = string

  type Perms = map<string, Plan>

  /** Where the loop is with the job it took. */
  datatype Loop =
    | Idle
    | Taken(job: string, plan: Plan)      // marked running
    | Ready(job: string, plan: Plan)      // its session is open
    | Waiting(job: string, plan: Plan)    // cur is set, its own check is to come
    | Checked(job: string, plan: Plan)    // about to start unless stopped
    | Executing(job: string, plan: Plan)
    | Ended(job: string, plan: Plan)
    | Closing(job: string, plan: Plan)    // finish was tried, cur is still set

  /** activeRun. */
  datatype Cur = Cur(job: string, plan: Plan, stopped: bool)

  /** What a sweep's transaction found for the job marked running. */
  datatype Verdict = Nothing | Stop(job: string) | Keep(job: string, plan: Plan) | Failed

  /** A sweep in progress: the loop's own or another, and the session that was running when it began. */
  datatype Sweep = Sweep(own: bool, session: Option<string>, verdict: Option<Verdict>)

  datatype State = State(
    perms: Perms, running: Option<string>, queued: seq<string>,
    loop: Loop, cur: Option<Cur>, sweep: Option<Sweep>,
    routed: set<string>, started: multiset<string>)

  datatype Event =
    | Permit(job: string, plan: Option<Plan>)
    | Route(job: string)
    | Take(dbOk: bool)
    | Open(isOpen: bool, dbOk: bool)
    | SetCur
    | SweepBegin(own: bool)
    | SweepRead(dbOk: bool)
    | SweepEnd
    | Launch(targetOk: bool)
    | Exit
    | Finish(dbOk: bool)
    | ClearCur
    | Restart(recovered: bool)

  /** The queued jobs that are still allowed. */
  function Allowed(queued: seq<string>, perms: Perms): seq<string> {
    if queued == [] then []
    else
      var j := queued[|queued| - 1];
      Allowed(queued[..|queued| - 1], perms) + if j in perms then [j] else []
  }

  /** take for the loop, which runs nothing: a job left marked running is cleared, the first allowed one is next. */
  function Started(st: State): State {
    var keep := Allowed(st.queued, st.perms);
    if keep == [] then st.(running := None, queued := [])
    else
      var j := keep[0];
      st.(running := Some(j), queued := keep[1..], loop := Taken(j, if j in st.perms then st.perms[j] else ""))
  }

  function Judge(st: State): Verdict {
    if st.running.None? then Nothing
    else
      var j := st.running.value;
      if j in st.perms then Keep(j, st.perms[j]) else Stop(j)
  }

  /** What a verdict does to the running command. */
  function Apply(cur: Option<Cur>, session: Option<string>, v: Verdict): Option<Cur> {
    if cur.None? then None
    else
      var c := cur.value;
      match v
      case Nothing => cur
      case Stop(j) => if c.job == j then Some(c.(stopped := true)) else cur
      case Keep(j, p) => if c.job == j && c.plan != p then Some(c.(stopped := true)) else cur
      case Failed => if session == Some(c.job) then Some(c.(stopped := true)) else cur
  }

  function Step(st: State, e: Event): Option<State> {
    match e
    case Permit(j, plan) => Some(st.(perms := if plan.Some? then st.perms[j := plan.value] else st.perms - {j}))
    case Route(j) =>
      if j in st.routed then None
      else if j !in st.perms || |st.queued| >= MAX_QUEUED then Some(st)
      else Some(st.(queued := st.queued + [j], routed := st.routed + {j}))
    case Take(dbOk) => if !st.loop.Idle? then None else if !dbOk then Some(st) else Some(Started(st))
    case Open(isOpen, dbOk) =>
      if !st.loop.Taken? then None
      else if isOpen then Some(st.(loop := Ready(st.loop.job, st.loop.plan)))
      else Some(st.(loop := Idle, running := if dbOk then None else st.running))
    case SetCur =>
      if !st.loop.Ready? then None
      else Some(st.(loop := Waiting(st.loop.job, st.loop.plan), cur := Some(Cur(st.loop.job, st.loop.plan, false))))
    case SweepBegin(own) =>
      if st.sweep.Some? || (own && !st.loop.Waiting?) then None
      else Some(st.(sweep := Some(Sweep(own, if st.cur.Some? then Some(st.cur.value.job) else None, None))))
    case SweepRead(dbOk) =>
      if st.sweep.None? || st.sweep.value.verdict.Some? then None
      else if !dbOk then Some(st.(sweep := Some(st.sweep.value.(verdict := Some(Failed)))))
      else Some(st.(sweep := Some(st.sweep.value.(verdict := Some(Judge(st)))), queued := Allowed(st.queued, st.perms)))
    case SweepEnd =>
      if st.sweep.None? || st.sweep.value.verdict.None? then None
      else
        var s := st.sweep.value;
        var after := st.(sweep := None, cur := Apply(st.cur, s.session, s.verdict.value));
        if s.own && st.loop.Waiting? then Some(after.(loop := Checked(st.loop.job, st.loop.plan))) else Some(after)
    case Launch(targetOk) =>
      if !st.loop.Checked? then None
      else if targetOk && st.cur.Some? && !st.cur.value.stopped then
        Some(st.(loop := Executing(st.loop.job, st.loop.plan), started := st.started + multiset{st.loop.job}))
      else Some(st.(loop := Ended(st.loop.job, st.loop.plan)))
    case Exit => if st.loop.Executing? then Some(st.(loop := Ended(st.loop.job, st.loop.plan))) else None
    case Finish(dbOk) =>
      if !st.loop.Ended? then None
      else Some(st.(loop := Closing(st.loop.job, st.loop.plan), running := if dbOk then None else st.running))
    case ClearCur => if st.loop.Closing? then Some(st.(loop := Idle, cur := None)) else None
    case Restart(recovered) =>
      var down := st.(loop := Idle, cur := None, sweep := None);
      Some(if recovered then down.(running := None, queued := []) else down)
  }

  function Run(st: State, es: seq<Event>): Option<State> {
    if es == [] then Some(st)
    else
      var before := Run(st, es[..|es| - 1]);
      if before.None? then None else Step(before.value, es[|es| - 1])
  }

  const EMPTY := State(map[], None, [], Idle, None, None, {}, multiset{})

  // ---- What the loop's position says ----

  predicate Holds(cur: Option<Cur>, j: string, p: Plan) { cur.Some? && cur.value.job == j && cur.value.plan == p }

  /**
   While the loop works on a job it is the one marked running, and from Waiting on the one in
   cur. The loop's own sweep runs while it waits.
   */
  predicate LoopOk(st: State) {
    && match st.loop {
         case Idle => st.cur.None?
         case Taken(j, _) => st.running == Some(j) && st.cur.None?
         case Ready(j, _) => st.running == Some(j) && st.cur.None?
         case Closing(j, p) => Holds(st.cur, j, p)
         case _ => st.running == Some(st.loop.job) && Holds(st.cur, st.loop.job, st.loop.plan)
       }
    && (st.sweep.Some? && st.sweep.value.own ==> st.loop.Waiting? && st.sweep.value.session == Some(st.loop.job))
  }

  lemma StepLoopOk(st: State, e: Event)
    requires LoopOk(st) && Step(st, e).Some?
    ensures LoopOk(Step(st, e).value)
  {
    hide Allowed;
  }

  // ---- Revocation ----

  /** The command may not run as it was taken: its session lost its permission or stands for something else now. */
  predicate Revoked(st: State, j: string, p: Plan) { j !in st.perms || st.perms[j] != p }

  /**
   Since the command was revoked, without its permission coming back: `seen`, the sweep in
   progress began; `swept`, a sweep began and finished.
   */
  datatype Watch = Watch(seen: bool, swept: bool)

  function Watched(st: State, e: Event, w: Watch, j: string, p: Plan): Watch {
    var after := Step(st, e);
    if after.None? || !Revoked(after.value, j, p) then Watch(false, false)
    else
      match e
      case SweepBegin(_) => w.(seen := true)
      case SweepEnd => Watch(false, w.swept || w.seen)
      case Restart(_) => w.(seen := false)
      case _ => w
  }

  predicate AboutToRun(st: State, j: string, p: Plan) { st.loop == Checked(j, p) || st.loop == Executing(j, p) }

  predicate Signalled(st: State) { st.cur.Some? && st.cur.value.stopped }

  /** A sweep that began after the revocation will stop the command: it knows its session, and finds it not allowed. */
  predicate Doomed(s: Sweep, j: string, p: Plan) {
    && s.session == Some(j)
    && match s.verdict
       case None => true
       case Some(Stop(k)) => k == j
       case Some(Keep(k, q)) => k == j && q != p
       case Some(Failed) => true
       case Some(Nothing) => false
  }

  /** The property: once swept, a command that has started or is about to has been told to stop. */
  predicate RevocationHolds(st: State, w: Watch, j: string, p: Plan) {
    w.swept && AboutToRun(st, j, p) ==> Signalled(st)
  }

  predicate WatchOk(st: State, w: Watch, j: string, p: Plan) {
    && (w.seen || w.swept ==> Revoked(st, j, p))
    && (w.seen ==> st.sweep.Some?)
    && (w.swept && st.sweep.Some? ==> w.seen)
    && (w.seen && !Signalled(st) && (AboutToRun(st, j, p) || (st.sweep.value.own && st.loop == Waiting(j, p)))
        ==> Doomed(st.sweep.value, j, p))
    && RevocationHolds(st, w, j, p)
  }

  lemma StepWatchOk(st: State, e: Event, w: Watch, j: string, p: Plan)
    requires LoopOk(st) && WatchOk(st, w, j, p) && Step(st, e).Some?
    ensures WatchOk(Step(st, e).value, Watched(st, e, w, j, p), j, p)
  {
    hide Allowed;
  }

  /** The watch over a whole run from an empty daemon. */
  function WatchRun(es: seq<Event>, j: string, p: Plan): Watch {
    if es == [] then Watch(false, false)
    else
      var before := Run(EMPTY, es[..|es| - 1]);
      if before.None? then Watch(false, false)
      else Watched(before.value, es[|es| - 1], WatchRun(es[..|es| - 1], j, p), j, p)
  }

  /**
   On every run and for every command: once it is revoked and a sweep has begun and finished
   since, it is not executing unless it has been signalled, and it does not start.
   */
  lemma {:induction false} RevocationBeatsEveryRace(es: seq<Event>, j: string, p: Plan)
    requires Run(EMPTY, es).Some?
    ensures var st := Run(EMPTY, es).value;
            LoopOk(st) && WatchOk(st, WatchRun(es, j, p), j, p) && RevocationHolds(st, WatchRun(es, j, p), j, p)
    decreases |es|
  {
    if es != [] {
      var init := es[..|es| - 1];
      RevocationBeatsEveryRace(init, j, p);
      var before, e := Run(EMPTY, init).value, es[|es| - 1];
      hide LoopOk, Step, Watched;
      StepLoopOk(before, e);
      StepWatchOk(before, e, WatchRun(init, j, p), j, p);
    }
  }

  /** So a revoked and swept command does not start: a step that executes it finds it executing and signalled. */
  lemma SweptNeverStarts(es: seq<Event>, e: Event, j: string, p: Plan)
    requires Run(EMPTY, es).Some? && WatchRun(es, j, p).swept
    requires Step(Run(EMPTY, es).value, e).Some? && Step(Run(EMPTY, es).value, e).value.loop == Executing(j, p)
    ensures Run(EMPTY, es).value.loop == Executing(j, p) && Signalled(Run(EMPTY, es).value)
  {
    RevocationBeatsEveryRace(es, j, p);
    hide Run, WatchRun, Allowed;
  }

  // ---- At most once ----

  predicate Distinct(q: seq<string>) { forall i, k | 0 <= i < k < |q| :: q[i] != q[k] }

  lemma {:induction false} AllowedPart(q: seq<string>, perms: Perms)
    requires Distinct(q)
    ensures var a := Allowed(q, perms);
            Distinct(a) && |a| <= |q| && forall j :: j in a <==> j in q && j in perms
  {
    if q != [] {
      var init, last := q[..|q| - 1], q[|q| - 1];
      assert Distinct(init);
      AllowedPart(init, perms);
      assert q == init + [last];
      assert last !in init;
    }
  }

  /** A job the loop holds but has not started. */
  predicate NotYet(l: Loop) { l.Taken? || l.Ready? || l.Waiting? || l.Checked? }

  predicate Once(st: State) {
    && Distinct(st.queued) && |st.queued| <= MAX_QUEUED
    && (forall j | j in st.queued :: j in st.routed && st.started[j] == 0)
    && (NotYet(st.loop) ==> st.loop.job in st.routed && st.started[st.loop.job] == 0 && st.loop.job !in st.queued)
  }

  ghost predicate NeverTwice(st: State) { forall j :: st.started[j] <= 1 && (st.started[j] > 0 ==> j in st.routed) }

  lemma TakenOnce(st: State)
    requires Once(st) && st.loop.Idle?
    ensures Once(Started(st))
  {
    AllowedPart(st.queued, st.perms);
    hide Allowed;
    var keep := Allowed(st.queued, st.perms);
    if keep != [] {
      assert keep[0] in keep;
      assert forall j | j in keep[1..] :: j in keep;
    }
  }

  lemma RouteOnce(st: State, j: string)
    requires Once(st) && NeverTwice(st) && Step(st, Route(j)).Some?
    ensures Once(Step(st, Route(j)).value)
  {
    var q := st.queued + [j];
    if j in st.perms && |st.queued| < MAX_QUEUED {
      assert j !in st.queued;
      forall i, k | 0 <= i < k < |q| ensures q[i] != q[k] { if k == |st.queued| { assert q[i] in st.queued; } }
      assert st.started[j] == 0;
    }
  }

  lemma SweepOnce(st: State, dbOk: bool)
    requires Once(st) && Step(st, SweepRead(dbOk)).Some?
    ensures Once(Step(st, SweepRead(dbOk)).value)
  {
    AllowedPart(st.queued, st.perms);
    hide Allowed;
  }

  lemma StepOnce(st: State, e: Event)
    requires Once(st) && NeverTwice(st) && Step(st, e).Some?
    ensures Once(Step(st, e).value)
  {
    hide Allowed, NeverTwice;
    match e
    case Take(dbOk) =>
      if dbOk { TakenOnce(st); hide Started; }
    case Route(j) => RouteOnce(st, j);
    case SweepRead(dbOk) => SweepOnce(st, dbOk);
    case _ =>
      hide Started, Judge, Apply, Distinct;
      assert Distinct([]) by { NoneDistinct(); }
  }

  lemma NoneDistinct()
    ensures Distinct([])
  {
  }

  lemma StepNeverTwice(st: State, e: Event)
    requires Once(st) && NeverTwice(st) && Step(st, e).Some?
    ensures NeverTwice(Step(st, e).value)
  {
    StartedStarts(st);
    hide Allowed, Started, Judge, Apply, Distinct;
  }

  lemma StartedStarts(st: State)
    ensures Started(st).started == st.started && Started(st).routed == st.routed
  {
  }

  /** Across any number of crashes and restarts a routed job is started at most once, and at most eight are queued. */
  lemma {:induction false} JobsRunAtMostOnce(es: seq<Event>)
    requires Run(EMPTY, es).Some?
    ensures Once(Run(EMPTY, es).value) && NeverTwice(Run(EMPTY, es).value)
    decreases |es|
  {
    if es != [] {
      JobsRunAtMostOnce(es[..|es| - 1]);
      var before, e := Run(EMPTY, es[..|es| - 1]).value, es[|es| - 1];
      hide Once, NeverTwice, Step;
      StepOnce(before, e);
      StepNeverTwice(before, e);
    }
  }
}
