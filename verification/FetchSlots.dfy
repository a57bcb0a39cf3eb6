/**
 The in-flight slots of the fetch server: two per peer, 32 in all, two per
 grant, and two queued refusals per peer. Every critical section is one step;
 the jobs between them advance in any interleaving.
 */
module FetchSlots {
  import opened Base

  const PER_PEER := 2
  const PER_GRANT := 2
  const IN_ALL := 32
  const REFUSALS_PER_PEER := 2

  /** Counters as the server keeps them: a key that is absent counts zero. */
  type Counters = map<string, int>

  function Count(m: Counters, k: string): int { if k in m then m[k] else 0 }

  function Inc(m: Counters, k: string): Counters { m[k := Count(m, k) + 1] }

  /** The decrement that drops a counter reaching zero. */
  function Dec(m: Counters, k: string): Counters {
    if Count(m, k) - 1 <= 0 then m - {k} else m[k := Count(m, k) - 1]
  }

  datatype Slots = Slots(peer: Counters, total: int, rejects: Counters, grant: Counters)

  const EMPTY := Slots(map[], 0, map[], map[])

  datatype Reserved = Dropped | Refusing | Counted

  /** What Handle reserves for a request of peer. */
  function Outcome(s: Slots, peer: string): Reserved {
    if Count(s.peer, peer) >= PER_PEER || s.total >= IN_ALL then
      if Count(s.rejects, peer) >= REFUSALS_PER_PEER then Dropped else Refusing
    else Counted
  }

  function Reserve(s: Slots, peer: string): Slots {
    match Outcome(s, peer)
    case Dropped => s
    case Refusing => s.(rejects := Inc(s.rejects, peer))
    case Counted => s.(peer := Inc(s.peer, peer), total := s.total + 1)
  }

  /** release: give back what Handle reserved. */
  function Release(s: Slots, peer: string, counted: bool): Slots {
    if counted then s.(peer := Dec(s.peer, peer), total := s.total - 1) else s.(rejects := Dec(s.rejects, peer))
  }

  // ---- Jobs ----

  /** How far a job is: reserved by Handle, in the queue, on a worker, holding a grant's slot, past it, released. */
  datatype Phase = Waiting | Queued | Running | Admitted(grant: string) | Done | Freed

  datatype Job = Job(peer: string, counted: bool, phase: Phase)

  datatype State = State(slots: Slots, jobs: map<nat, Job>)

  datatype Event =
    | Arrive(id: nat, peer: string)
    | Enqueue(id: nat)
    | QueueFull(id: nat)
    | Begin(id: nat)
    | Admit(id: nat, grant: string)
    | FreeGrant(id: nat)
    | Free(id: nat)

  function To(st: State, id: nat, slots: Slots, phase: Phase): State
    requires id in st.jobs
  {
    State(slots, st.jobs[id := st.jobs[id].(phase := phase)])
  }

  /** One critical section; None when the event cannot happen in this state. */
  function Step(st: State, e: Event): Option<State> {
    if e.Arrive? then
      if e.id in st.jobs then None
      else if Outcome(st.slots, e.peer).Dropped? then Some(st)
      else Some(State(Reserve(st.slots, e.peer),
                      st.jobs[e.id := Job(e.peer, Outcome(st.slots, e.peer).Counted?, Waiting)]))
    else if e.id !in st.jobs then None
    else
      var j := st.jobs[e.id];
      match e
      case Enqueue(id) => if j.phase.Waiting? then Some(To(st, id, st.slots, Queued)) else None
      case QueueFull(id) =>
        if j.phase.Waiting? then Some(To(st, id, Release(st.slots, j.peer, j.counted), Freed)) else None
      case Begin(id) => if j.phase.Queued? then Some(To(st, id, st.slots, Running)) else None
      case Admit(id, g) =>
        if !j.phase.Running? || !j.counted then None
        else if Count(st.slots.grant, g) >= PER_GRANT then Some(st)
        else Some(To(st, id, st.slots.(grant := Inc(st.slots.grant, g)), Admitted(g)))
      case FreeGrant(id) =>
        if j.phase.Admitted? then
          Some(To(st, id, st.slots.(grant := Dec(st.slots.grant, j.phase.grant)), Done))
        else None
      case Free(id) =>
        if j.phase.Running? || j.phase.Done? then Some(To(st, id, Release(st.slots, j.peer, j.counted), Freed))
        else None
  }

  function Run(st: State, es: seq<Event>): Option<State> {
    if es == [] then Some(st)
    else
      var before := Run(st, es[..|es| - 1]);
      if before.None? then None else Step(before.value, es[|es| - 1])
  }

  // ---- Who holds what ----

  function Holds(p: string): Job -> bool { (j: Job) => j.counted && !j.phase.Freed? && j.peer == p }
  function HoldsAny(): Job -> bool { (j: Job) => j.counted && !j.phase.Freed? }
  function Refused(p: string): Job -> bool { (j: Job) => !j.counted && !j.phase.Freed? && j.peer == p }
  function HoldsGrant(g: string): Job -> bool { (j: Job) => j.phase == Admitted(g) }

  function Those(jobs: map<nat, Job>, f: Job -> bool): set<nat> { set id | id in jobs && f(jobs[id]) }
  function Number(jobs: map<nat, Job>, f: Job -> bool): nat { |Those(jobs, f)| }

  function One(b: bool): int { if b then 1 else 0 }

  lemma Without(s: set<nat>, id: nat)
    ensures |s - {id}| == |s| - One(id in s)
  {
    if id in s { assert s == (s - {id}) + {id}; } else { assert s - {id} == s; }
  }

  /** Changing one job changes a count by what that job was and is. */
  lemma NumberUpdate(jobs: map<nat, Job>, id: nat, job: Job, f: Job -> bool)
    ensures Number(jobs[id := job], f)
         == Number(jobs, f) - One(id in jobs && f(jobs[id])) + One(f(job))
  {
    var was, now := Those(jobs, f), Those(jobs[id := job], f);
    assert now - {id} == was - {id};
    Without(was, id);
    Without(now, id);
  }

  // ---- Sums ----

  ghost function Sum(m: Counters): int
    decreases m.Keys
  {
    if m == map[] then 0 else var k :| k in m; m[k] + Sum(m - {k})
  }

  lemma {:induction false} SumTake(m: Counters, k: string)
    requires k in m
    ensures Sum(m) == m[k] + Sum(m - {k})
    decreases m.Keys
  {
    var c :| c in m && Sum(m) == m[c] + Sum(m - {c});
    if c != k {
      var l, r := m - {c}, m - {k};
      assert l.Keys < m.Keys && r.Keys < m.Keys;
      assert l - {k} == r - {c};
      SumTake(l, k);
      SumTake(r, c);
    }
  }

  lemma SumInc(m: Counters, k: string)
    ensures Sum(Inc(m, k)) == Sum(m) + 1
  {
    SumTake(Inc(m, k), k);
    assert Inc(m, k) - {k} == m - {k};
    if k in m { SumTake(m, k); } else { assert m - {k} == m; }
  }

  lemma SumDec(m: Counters, k: string)
    requires Count(m, k) > 0
    ensures Sum(Dec(m, k)) == Sum(m) - 1
  {
    SumTake(m, k);
    if Count(m, k) > 1 {
      SumTake(Dec(m, k), k);
      assert Dec(m, k) - {k} == m - {k};
    }
  }

  // ---- Invariant ----

  ghost predicate Counting(m: Counters, jobs: map<nat, Job>, f: string -> Job -> bool, limit: int) {
    forall k :: 0 <= Count(m, k) == Number(jobs, f(k)) <= limit
  }

  /** Every counter is the number of jobs that hold such a slot, and no limit is passed. */
  ghost predicate Inv(st: State) {
    && Counting(st.slots.peer, st.jobs, Holds, PER_PEER)
    && Counting(st.slots.rejects, st.jobs, Refused, REFUSALS_PER_PEER)
    && Counting(st.slots.grant, st.jobs, HoldsGrant, PER_GRANT)
    && st.slots.total == Number(st.jobs, HoldsAny()) == Sum(st.slots.peer) <= IN_ALL
  }

  lemma Unmoved(m: Counters, jobs: map<nat, Job>, f: string -> Job -> bool, limit: int, id: nat, job: Job)
    requires Counting(m, jobs, f, limit)
    requires forall k :: (id in jobs && f(k)(jobs[id])) == f(k)(job)
    ensures Counting(m, jobs[id := job], f, limit)
  {
    forall k ensures 0 <= Count(m, k) == Number(jobs[id := job], f(k)) <= limit {
      NumberUpdate(jobs, id, job, f(k));
    }
  }

  lemma Taken(m: Counters, jobs: map<nat, Job>, f: string -> Job -> bool, limit: int, id: nat, job: Job, key: string)
    requires Counting(m, jobs, f, limit) && Count(m, key) < limit
    requires forall k :: !(id in jobs && f(k)(jobs[id])) && f(k)(job) == (k == key)
    ensures Counting(Inc(m, key), jobs[id := job], f, limit)
  {
    forall k ensures 0 <= Count(Inc(m, key), k) == Number(jobs[id := job], f(k)) <= limit {
      NumberUpdate(jobs, id, job, f(k));
      assert Count(m, k) == Number(jobs, f(k));
    }
  }

  lemma Given(m: Counters, jobs: map<nat, Job>, f: string -> Job -> bool, limit: int, id: nat, job: Job, key: string)
    requires Counting(m, jobs, f, limit) && id in jobs
    requires forall k :: f(k)(jobs[id]) == (k == key) && !f(k)(job)
    ensures Count(m, key) > 0
    ensures Counting(Dec(m, key), jobs[id := job], f, limit)
  {
    assert id in Those(jobs, f(key));
    assert Count(m, key) == Number(jobs, f(key));
    forall k ensures 0 <= Count(Dec(m, key), k) == Number(jobs[id := job], f(k)) <= limit {
      NumberUpdate(jobs, id, job, f(k));
      assert Count(m, k) == Number(jobs, f(k));
    }
  }

  lemma Arrives(st: State, id: nat, peer: string)
    requires Inv(st) && id !in st.jobs
    ensures Inv(Step(st, Arrive(id, peer)).value)
  {
    var job := Job(peer, Outcome(st.slots, peer).Counted?, Waiting);
    hide Counting;
    match Outcome(st.slots, peer)
    case Dropped =>
    case Refusing =>
      Unmoved(st.slots.peer, st.jobs, Holds, PER_PEER, id, job);
      Taken(st.slots.rejects, st.jobs, Refused, REFUSALS_PER_PEER, id, job, peer);
      Unmoved(st.slots.grant, st.jobs, HoldsGrant, PER_GRANT, id, job);
      NumberUpdate(st.jobs, id, job, HoldsAny());
    case Counted =>
      Taken(st.slots.peer, st.jobs, Holds, PER_PEER, id, job, peer);
      Unmoved(st.slots.rejects, st.jobs, Refused, REFUSALS_PER_PEER, id, job);
      Unmoved(st.slots.grant, st.jobs, HoldsGrant, PER_GRANT, id, job);
      NumberUpdate(st.jobs, id, job, HoldsAny());
      SumInc(st.slots.peer, peer);
  }

  /** The release of a job that still holds what Handle reserved, and no grant's slot. */
  lemma Releases(st: State, id: nat)
    requires Inv(st) && id in st.jobs && !st.jobs[id].phase.Freed? && !st.jobs[id].phase.Admitted?
    ensures Inv(To(st, id, Release(st.slots, st.jobs[id].peer, st.jobs[id].counted), Freed))
  {
    var j := st.jobs[id];
    var job := j.(phase := Freed);
    hide Counting;
    Unmoved(st.slots.grant, st.jobs, HoldsGrant, PER_GRANT, id, job);
    NumberUpdate(st.jobs, id, job, HoldsAny());
    if j.counted {
      Given(st.slots.peer, st.jobs, Holds, PER_PEER, id, job, j.peer);
      Unmoved(st.slots.rejects, st.jobs, Refused, REFUSALS_PER_PEER, id, job);
      SumDec(st.slots.peer, j.peer);
    } else {
      Unmoved(st.slots.peer, st.jobs, Holds, PER_PEER, id, job);
      Given(st.slots.rejects, st.jobs, Refused, REFUSALS_PER_PEER, id, job, j.peer);
    }
  }

  /** A job that moves on without being released, its grant's slot taken or given back as told. */
  lemma Moves(st: State, id: nat, phase: Phase, grant: Counters)
    requires Inv(st) && id in st.jobs && !st.jobs[id].phase.Freed? && !phase.Freed?
    requires Counting(grant, To(st, id, st.slots, phase).jobs, HoldsGrant, PER_GRANT)
    ensures Inv(To(st, id, st.slots.(grant := grant), phase))
  {
    var job := st.jobs[id].(phase := phase);
    hide Counting;
    Unmoved(st.slots.peer, st.jobs, Holds, PER_PEER, id, job);
    Unmoved(st.slots.rejects, st.jobs, Refused, REFUSALS_PER_PEER, id, job);
    NumberUpdate(st.jobs, id, job, HoldsAny());
  }

  lemma StepKeepsInv(st: State, e: Event)
    requires Inv(st) && Step(st, e).Some?
    ensures Inv(Step(st, e).value)
  {
    if e.Arrive? {
      Arrives(st, e.id, e.peer);
    } else {
      hide Counting;
      var id, j, grant := e.id, st.jobs[e.id], st.slots.grant;
      match e
      case QueueFull(_) => Releases(st, id);
      case Free(_) => Releases(st, id);
      case Admit(_, g) =>
        if Count(grant, g) < PER_GRANT {
          Taken(grant, st.jobs, HoldsGrant, PER_GRANT, id, j.(phase := Admitted(g)), g);
          Moves(st, id, Admitted(g), Inc(grant, g));
        }
      case FreeGrant(_) =>
        Given(grant, st.jobs, HoldsGrant, PER_GRANT, id, j.(phase := Done), j.phase.grant);
        Moves(st, id, Done, Dec(grant, j.phase.grant));
      case Enqueue(_) =>
        Unmoved(grant, st.jobs, HoldsGrant, PER_GRANT, id, j.(phase := Queued));
        Moves(st, id, Queued, grant);
      case Begin(_) =>
        Unmoved(grant, st.jobs, HoldsGrant, PER_GRANT, id, j.(phase := Running));
        Moves(st, id, Running, grant);
    }
  }

  /** On every run the counters are exactly the unreleased jobs, within every limit. */
  lemma {:induction false} SlotsAreHeldJobs(es: seq<Event>)
    requires Run(State(EMPTY, map[]), es).Some?
    ensures Inv(Run(State(EMPTY, map[]), es).value)
    decreases |es|
  {
    if es != [] {
      SlotsAreHeldJobs(es[..|es| - 1]);
      StepKeepsInv(Run(State(EMPTY, map[]), es[..|es| - 1]).value, es[|es| - 1]);
    }
  }

  /** Once every job is released nothing is left counted, so an idle server takes the next request. */
  lemma IdleIsEmpty(st: State)
    requires Inv(st) && forall id :: id in st.jobs ==> st.jobs[id].phase.Freed?
    ensures st.slots.total == 0
    ensures forall k :: Count(st.slots.peer, k) == 0 && Count(st.slots.rejects, k) == 0 && Count(st.slots.grant, k) == 0
  {
    assert Those(st.jobs, HoldsAny()) == {};
    forall k ensures Count(st.slots.peer, k) == 0 && Count(st.slots.rejects, k) == 0 && Count(st.slots.grant, k) == 0 {
      assert Those(st.jobs, Holds(k)) == {} && Those(st.jobs, Refused(k)) == {} && Those(st.jobs, HoldsGrant(k)) == {};
    }
  }

  // ---- What is refused ----

  /** A request gets a slot exactly while its peer holds fewer than two and all peers fewer than 32. */
  lemma ReservesExactly(st: State, peer: string)
    requires Inv(st)
    ensures var r := Outcome(st.slots, peer);
            && (r.Counted? <==> Number(st.jobs, Holds(peer)) < 2 && Number(st.jobs, HoldsAny()) < 32)
            && (r.Refusing? <==> !r.Counted? && Number(st.jobs, Refused(peer)) < 2)
  {
    hide Number;
    assert Count(st.slots.peer, peer) == Number(st.jobs, Holds(peer));
    assert Count(st.slots.rejects, peer) == Number(st.jobs, Refused(peer));
  }

  /** A running job gets its grant's slot exactly while the grant has fewer than two operations. */
  lemma AdmitsExactly(st: State, id: nat, g: string)
    requires Inv(st) && id in st.jobs && st.jobs[id].phase.Running? && st.jobs[id].counted
    ensures var after := Step(st, Admit(id, g));
            && after.Some?
            && (after.value.jobs[id].phase == Admitted(g) <==> Number(st.jobs, HoldsGrant(g)) < 2)
            && (after.value.jobs[id].phase != Admitted(g) ==> after.value == st)
  {
    hide Number;
    assert Count(st.slots.grant, g) == Number(st.jobs, HoldsGrant(g));
  }
}
