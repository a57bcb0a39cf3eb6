/**
 The approval store as a state machine. A step is one critical section under
 the store's mutex, one transaction, or one follow-up that runs outside the
 mutex for an approval its caller has taken out of memory. Any database write
 may fail. Times are in milliseconds.
 */
module Approval {
  import opened Base
  import opened RollingDay

  const TTL := 600_000
  const MAX_ATTEMPTS := 3
  const MAX_PENDING := 5
  const MAX_PER_HOUR := 20
  const MAX_WRONG := 10
  const HOUR := 3_600_000
  const RETENTION := 30 * DAY

  /** The in-memory half of a pending approval. A reserved one has no row yet. */
  datatype Entry = Entry(reserved: bool, attempts: nat, created: int)

  datatype RowState = Waiting | Approved | Rejected | Expired

  datatype Row = Row(state: RowState, attempts: nat, created: int)

  predicate Overdue(row: Row, now: int) { now >= row.created + TTL }

  /** The rows countCreatedSince counts at now: those of the last hour. */
  function Created(rows: map<string, Row>, now: int): set<string> {
    set id | id in rows && rows[id].created >= now - HOUR
  }

  /** pruneDecided may delete the row: what was decided over 30 days ago was created before that. */
  predicate Prunable(row: Row, now: int) { row.created < now - RETENTION }

  /** What is still to be done for an approval that left memory without being approved. */
  datatype Owed =
    | RejectThenHook    // rejectRow, then OnReject
    | ExpireThenHook    // writeExpired, then OnReject
    | Hook(retry: bool) // OnReject, then the failed expiry write again
    | Retry             // the failed expiry write again

  /**
   The store, and a record of the past: every id handed out, the approvals finished in this
   run, whose actions were committed, whose OnReject ran, and the wrong codes tried.
   */
  datatype State = State(
    pending: map<string, Entry>, rows: map<string, Row>, wrong: seq<int>, owed: map<string, Owed>,
    closed: bool, clock: int,
    used: set<string>, created: set<string>,
    performed: multiset<string>, hooks: multiset<string>, tested: multiset<string>)

  /** How the database and the waiting action behave while an answer is checked. */
  datatype Fate = ReadFails | TxFails | ConditionFails | PerformFails | Works

  datatype Event =
    | Sweep(now: int, ids: set<string>)
    | Reserve(id: string, now: int)
    | DropReserved(id: string, now: int)
    | Store(id: string, dbOk: bool, now: int)
    | Confirm(id: string, correct: bool, fate: Fate, now: int)
    | Reject(id: string, now: int)
    | TimerFires(id: string, now: int)
    | FollowUp(id: string, dbOk: bool, now: int)
    | Prune(id: string, now: int)
    | Close(now: int)
    | Restart(expired: set<string>, now: int)

  // ---- The wrong-code window ----

  predicate Locked(st: State, now: int) { |Recent(st.wrong, now)| >= MAX_WRONG }

  // ---- Steps ----

  function Settle(st: State, id: string, what: Owed): State {
    st.(pending := st.pending - {id}, owed := st.owed[id := what])
  }

  /** An approval found past its expiry, its row written. */
  function Expire(st: State, id: string): State
    requires id in st.rows
  {
    Settle(st.(rows := st.rows[id := st.rows[id].(state := Expired)]), id, Hook(false))
  }

  function Finished(st: State): set<string> { set id | id in st.pending && !st.pending[id].reserved }

  /** dropAllLocked: nothing stays pending; the finished ones are still to be rejected. */
  function DropAll(st: State): State {
    st.(pending := map[], owed := st.owed + map id | id in Finished(st) :: RejectThenHook)
  }

  predicate CanExpire(st: State, id: string, now: int) {
    id in st.pending && !st.pending[id].reserved && id in st.rows && Overdue(st.rows[id], now)
  }

  /** sweepExpiredLocked, as far as the database let it go. */
  function Swept(st: State, ids: set<string>): State {
    st.(pending := st.pending - ids,
        rows := map id | id in st.rows :: if id in ids then st.rows[id].(state := Expired) else st.rows[id],
        owed := st.owed + map id | id in ids :: Hook(false))
  }

  /** recordBadCode committed: the row's attempts and the daily window. */
  function Counted(st: State, id: string, now: int): State
    requires id in st.rows
  {
    var row := st.rows[id];
    var state := if row.attempts + 1 >= MAX_ATTEMPTS then Rejected else Waiting;
    st.(rows := st.rows[id := row.(attempts := row.attempts + 1, state := state)],
        wrong := Recent(st.wrong, now) + [now])
  }

  /** What a counted wrong code does to the approval; the attempts seen in memory limit it too. */
  function Judged(st: State, id: string): State
    requires id in st.pending && id in st.rows
  {
    var seen := st.pending[id].attempts + 1;
    if st.rows[id].state.Rejected? then Settle(st, id, Hook(false))
    else if seen >= MAX_ATTEMPTS then Settle(st, id, RejectThenHook)
    else st.(pending := st.pending[id := st.pending[id].(attempts := seen)])
  }

  /** A wrong code: the attempt counts in memory whatever the database does. */
  function WrongCode(st: State, id: string, dbOk: bool, now: int): State
    requires id in st.pending && id in st.rows
  {
    var tried := st.(tested := st.tested + multiset{id});
    if !dbOk then Settle(tried, id, RejectThenHook)
    else
      var counted := Counted(tried, id, now);
      var judged := Judged(counted, id);
      if |counted.wrong| >= MAX_WRONG then DropAll(judged) else judged
  }

  /** The commit that marks the row approved and performs the action. */
  function Approve(st: State, id: string): State
    requires id in st.rows
  {
    st.(pending := st.pending - {id}, rows := st.rows[id := st.rows[id].(state := Approved)],
        performed := st.performed + multiset{id})
  }

  function Confirmed(st: State, id: string, correct: bool, fate: Fate, now: int): State {
    if id !in st.pending || st.pending[id].reserved || id !in st.rows || fate.ReadFails? then st
    else if Overdue(st.rows[id], now) then Expire(st, id)
    else if !correct then WrongCode(st, id, fate.Works?, now)
    else
      match fate
      case ConditionFails => Settle(st, id, RejectThenHook)
      case Works => Approve(st, id)
      case _ => st
  }

  /** A write of the row's state, which succeeds or leaves it as it is. */
  function Write(st: State, id: string, state: RowState, ok: bool): State {
    if ok && id in st.rows then st.(rows := st.rows[id := st.rows[id].(state := state)]) else st
  }

  function Owing(st: State, id: string, what: Option<Owed>): State {
    st.(owed := if what.Some? then st.owed[id := what.value] else st.owed - {id})
  }

  function Followed(st: State, id: string, dbOk: bool): State
    requires id in st.owed
  {
    var waiting := id in st.rows && st.rows[id].state.Waiting?;
    match st.owed[id]
    case RejectThenHook => Owing(Write(st, id, Rejected, dbOk), id, Some(Hook(false)))
    case ExpireThenHook =>
      if dbOk && !waiting then Owing(st, id, None)
      else Owing(Write(st, id, Expired, dbOk), id, Some(Hook(!dbOk)))
    case Hook(retry) =>
      Owing(st.(hooks := st.hooks + multiset{id}), id, if retry then Some(Retry) else None)
    case Retry => if !dbOk then st else Owing(Write(st, id, Expired, waiting), id, None)
  }

  /** The effect of an event; None when it cannot happen here. Ids are never handed out twice. */
  function Effect(st: State, e: Event): Option<State> {
    match e
    case Sweep(now, ids) => if forall id | id in ids :: CanExpire(st, id, now) then Some(Swept(st, ids)) else None
    case Reserve(id, now) =>
      if id in st.used then None
      else if Locked(st, now) || |st.pending| >= MAX_PENDING || st.closed then Some(st)
      else if |Created(st.rows, now)| >= MAX_PER_HOUR then Some(st)
      else Some(st.(pending := st.pending[id := Entry(true, 0, now)], used := st.used + {id}))
    case DropReserved(id, _) =>
      if id in st.pending && st.pending[id].reserved then Some(st.(pending := st.pending - {id})) else Some(st)
    case Store(id, dbOk, _) =>
      if id in st.pending && !st.pending[id].reserved then None
      else if id !in st.pending || st.closed || !dbOk then Some(st.(pending := st.pending - {id}))
      else
        var at := st.pending[id].created;
        Some(st.(pending := st.pending[id := Entry(false, 0, at)],
                 rows := st.rows[id := Row(Waiting, 0, at)], created := st.created + {id}))
    case Confirm(id, correct, fate, now) => Some(Confirmed(st, id, correct, fate, now))
    case Reject(id, _) =>
      if id in st.pending && !st.pending[id].reserved then Some(Settle(st, id, RejectThenHook)) else Some(st)
    case TimerFires(id, _) =>
      if id !in st.pending then Some(st)
      else if st.pending[id].reserved then None
      else Some(Settle(st, id, ExpireThenHook))
    case FollowUp(id, dbOk, _) => if id in st.owed then Some(Followed(st, id, dbOk)) else None
    case Prune(id, now) =>
      if id in st.rows && !st.rows[id].state.Waiting? && Prunable(st.rows[id], now) then
        Some(st.(rows := st.rows - {id}))
      else None
    case Close(_) => Some(st.(closed := true))
    case Restart(expired, _) =>
      if forall id | id in expired :: id in st.rows && st.rows[id].state.Waiting? then
        Some(st.(pending := map[], owed := map[], created := {}, closed := false,
                 rows := map id | id in st.rows ::
                           if id in expired then st.rows[id].(state := Expired) else st.rows[id]))
      else None
  }

  /** The clock is read under the mutex, so it never goes back between steps. */
  function Step(st: State, e: Event): Option<State> {
    if e.now < st.clock then None
    else
      var r := Effect(st, e);
      if r.None? then None else Some(r.value.(clock := e.now))
  }

  function Run(st: State, es: seq<Event>): Option<State> {
    if es == [] then Some(st)
    else
      var before := Run(st, es[..|es| - 1]);
      if before.None? then None else Step(before.value, es[|es| - 1])
  }

  /** A first run, on a database that holds a list of wrong codes. Later runs begin with Restart. */
  function Start(now: int, wrong: seq<int>): State {
    State(map[], map[], wrong, map[], false, now, {}, {}, multiset{}, multiset{}, multiset{})
  }

  // ---- Ownership ----

  /** Nothing has happened to an approval yet that ends it. */
  predicate Open(st: State, id: string) { st.performed[id] == 0 && st.hooks[id] == 0 }

  /** A pending approval: reserved without a row, or with a waiting row that counts the same wrong codes. */
  predicate PendingOk(st: State, id: string)
    requires id in st.pending
  {
    var e := st.pending[id];
    && id in st.used && id !in st.owed && Open(st, id)
    && if e.reserved then id !in st.rows && id !in st.created && st.tested[id] == 0
       else
         && id in st.created && id in st.rows && st.rows[id].state.Waiting?
         && st.rows[id].attempts == e.attempts == st.tested[id] < MAX_ATTEMPTS
  }

  /** An approval some caller has taken: not approved, its hook still to run unless only the row is retried. */
  predicate OwedOk(st: State, id: string)
    requires id in st.owed
  {
    && id in st.used && id in st.created && st.performed[id] == 0
    && st.hooks[id] == (if st.owed[id].Retry? then 1 else 0)
    && (st.owed[id].ExpireThenHook? ==> id in st.rows && st.rows[id].state.Waiting?)
  }

  /** The action commits at most once and only with the row approved; OnReject runs at most once and never then. */
  predicate HistoryOk(st: State, id: string) {
    && st.performed[id] + st.hooks[id] <= 1
    && st.tested[id] <= MAX_ATTEMPTS
    && (st.performed[id] + st.hooks[id] + st.tested[id] > 0 ==> id in st.used)
    && (id in st.rows ==> id in st.used && (st.rows[id].state.Approved? <==> st.performed[id] == 1))
  }

  /** In one run nothing gets lost: a finished approval is pending, approved, or rejected with its hook run or owed. */
  predicate AccountedFor(st: State, id: string) {
    id in st.created ==>
      id in st.pending || st.performed[id] == 1 || st.hooks[id] == 1 || (id in st.owed && !st.owed[id].Retry?)
  }

  predicate Owned(st: State, id: string) {
    && (id in st.pending ==> PendingOk(st, id))
    && (id in st.owed ==> OwedOk(st, id))
    && HistoryOk(st, id) && AccountedFor(st, id)
  }

  ghost predicate OwnedAll(st: State) { forall id :: Owned(st, id) }

  /** Two states that say the same about an approval. */
  predicate Alike(a: State, b: State, id: string) {
    && (id in a.pending <==> id in b.pending) && (id in a.pending ==> a.pending[id] == b.pending[id])
    && (id in a.rows <==> id in b.rows) && (id in a.rows ==> a.rows[id] == b.rows[id])
    && (id in a.owed <==> id in b.owed) && (id in a.owed ==> a.owed[id] == b.owed[id])
    && (id in a.used <==> id in b.used) && (id in a.created <==> id in b.created)
    && a.performed[id] == b.performed[id] && a.hooks[id] == b.hooks[id] && a.tested[id] == b.tested[id]
  }

  lemma AlikeOwned(a: State, b: State, id: string)
    requires Alike(a, b, id) && Owned(a, id)
    ensures Owned(b, id)
  {
  }

  lemma DropAllOwned(st: State, id: string)
    requires Owned(st, id)
    ensures Owned(DropAll(st), id)
  {
  }

  lemma JudgedOwned(st: State, id: string, now: int)
    requires id in st.pending && !st.pending[id].reserved && id in st.rows && Owned(st, id)
    ensures Owned(Judged(Counted(st.(tested := st.tested + multiset{id}), id, now), id), id)
  {
    hide Recent;
  }

  lemma JudgedElsewhere(st: State, id: string, now: int, k: string)
    requires id in st.pending && id in st.rows && k != id
    ensures Alike(st, Judged(Counted(st.(tested := st.tested + multiset{id}), id, now), id), k)
  {
    hide Recent;
  }

  lemma SettleElsewhere(st: State, id: string, k: string)
    requires k != id
    ensures Alike(st, Settle(st.(tested := st.tested + multiset{id}), id, RejectThenHook), k)
  {
  }

  lemma WrongCodeOwned(st: State, id: string, dbOk: bool, now: int, k: string)
    requires id in st.pending && !st.pending[id].reserved && id in st.rows && Owned(st, id) && Owned(st, k)
    ensures Owned(WrongCode(st, id, dbOk, now), k)
  {
    var tried := st.(tested := st.tested + multiset{id});
    var judged := Judged(Counted(tried, id, now), id);
    if k == id {
      JudgedOwned(st, id, now);
      assert Owned(Settle(tried, id, RejectThenHook), id);
    } else {
      JudgedElsewhere(st, id, now, k);
      SettleElsewhere(st, id, k);
      hide Owned, Alike, Settle;
      AlikeOwned(st, judged, k);
      AlikeOwned(st, Settle(tried, id, RejectThenHook), k);
    }
    hide *;
    DropAllOwned(judged, k);
    WrongCodeCases(st, id, dbOk, now);
  }

  lemma WrongCodeCases(st: State, id: string, dbOk: bool, now: int)
    requires id in st.pending && id in st.rows
    ensures var tried := st.(tested := st.tested + multiset{id});
            var judged := Judged(Counted(tried, id, now), id);
            var after := WrongCode(st, id, dbOk, now);
            after == Settle(tried, id, RejectThenHook) || after == judged || after == DropAll(judged)
  {
    hide Judged, Counted, DropAll, Settle;
  }

  lemma ExpireOwned(st: State, id: string, k: string)
    requires id in st.pending && !st.pending[id].reserved && id in st.rows && Owned(st, id) && Owned(st, k)
    ensures Owned(Expire(st, id), k)
  {
  }

  lemma SettleOwned(st: State, id: string, k: string)
    requires id in st.pending && !st.pending[id].reserved && id in st.rows && Owned(st, id) && Owned(st, k)
    ensures Owned(Settle(st, id, RejectThenHook), k)
  {
  }

  lemma ApproveOwned(st: State, id: string, k: string)
    requires id in st.pending && !st.pending[id].reserved && id in st.rows && Owned(st, id) && Owned(st, k)
    ensures Owned(Approve(st, id), k)
  {
  }

  lemma ConfirmedOwned(st: State, id: string, correct: bool, fate: Fate, now: int, k: string)
    requires Owned(st, id) && Owned(st, k)
    ensures Owned(Confirmed(st, id, correct, fate, now), k)
  {
    hide Owned, WrongCode, Expire, Settle, Approve;
    if id in st.pending && !st.pending[id].reserved && id in st.rows && !fate.ReadFails? {
      WrongCodeOwned(st, id, fate.Works?, now, k);
      ExpireOwned(st, id, k);
      SettleOwned(st, id, k);
      ApproveOwned(st, id, k);
    }
  }

  lemma WriteElsewhere(st: State, id: string, state: RowState, ok: bool, k: string)
    requires k != id
    ensures Alike(st, Write(st, id, state, ok), k)
  {
  }

  lemma OwingElsewhere(st: State, id: string, what: Option<Owed>, k: string)
    requires k != id
    ensures Alike(st, Owing(st, id, what), k)
  {
  }

  lemma AlikeTransitive(a: State, b: State, c: State, id: string)
    requires Alike(a, b, id) && Alike(b, c, id)
    ensures Alike(a, c, id)
  {
  }

  lemma FollowedElsewhere(st: State, id: string, dbOk: bool, k: string)
    requires id in st.owed && k != id
    ensures Alike(st, Followed(st, id, dbOk), k)
  {
    var after := Followed(st, id, dbOk);
    var state := if st.owed[id].RejectThenHook? then Rejected else Expired;
    var waiting := id in st.rows && st.rows[id].state.Waiting?;
    var ok := if st.owed[id].Retry? then waiting else dbOk;
    var mid := if st.owed[id].Hook? then st.(hooks := st.hooks + multiset{id}) else Write(st, id, state, ok);
    var what := if id in after.owed then Some(after.owed[id]) else None;
    if st.owed[id].Hook? { assert Alike(st, mid, k); } else { WriteElsewhere(st, id, state, ok, k); }
    OwingElsewhere(mid, id, what, k);
    OwingElsewhere(st, id, what, k);
    hide Alike, Write;
    AlikeTransitive(st, mid, Owing(mid, id, what), k);
    assert Alike(st, st, k) by { AlikeItself(st, k); }
  }

  lemma AlikeItself(st: State, k: string)
    ensures Alike(st, st, k)
  {
  }

  lemma FollowedItself(st: State, id: string, dbOk: bool)
    requires id in st.owed && Owned(st, id)
    ensures Owned(Followed(st, id, dbOk), id)
  {
  }

  lemma FollowedOwned(st: State, id: string, dbOk: bool, k: string)
    requires id in st.owed && Owned(st, id) && Owned(st, k)
    ensures Owned(Followed(st, id, dbOk), k)
  {
    hide Owned, Followed, Alike;
    if k == id {
      FollowedItself(st, id, dbOk);
    } else {
      FollowedElsewhere(st, id, dbOk, k);
      AlikeOwned(st, Followed(st, id, dbOk), k);
    }
  }

  lemma ReserveOwned(st: State, e: Event, k: string)
    requires e.Reserve? || e.DropReserved?
    requires Owned(st, e.id) && Owned(st, k) && Effect(st, e).Some?
    ensures Owned(Effect(st, e).value, k)
  {
    hide Recent;
  }

  lemma StoreOwned(st: State, e: Event, k: string)
    requires e.Store?
    requires Owned(st, e.id) && Owned(st, k) && Effect(st, e).Some?
    ensures Owned(Effect(st, e).value, k)
  {
    hide Recent;
  }

  lemma TakeOwned(st: State, e: Event, k: string)
    requires e.Reject? || e.TimerFires? || e.Prune?
    requires Owned(st, e.id) && Owned(st, k) && Effect(st, e).Some?
    ensures Owned(Effect(st, e).value, k)
  {
    hide Recent;
  }

  lemma SweptOwned(st: State, ids: set<string>, k: string)
    requires Owned(st, k) && (k in ids ==> k in st.pending && !st.pending[k].reserved)
    ensures Owned(Swept(st, ids), k)
  {
  }

  lemma RestartOwned(st: State, e: Event, k: string)
    requires e.Restart? && Owned(st, k) && Effect(st, e).Some?
    ensures Owned(Effect(st, e).value, k)
  {
    hide Recent;
  }

  lemma EffectOwned(st: State, e: Event, k: string)
    requires OwnedAll(st) && Effect(st, e).Some?
    ensures Owned(Effect(st, e).value, k)
  {
    hide Owned, Confirmed, Followed, Swept, Settle;
    assert Owned(st, k);
    match e
    case Confirm(id, correct, fate, now) => ConfirmedOwned(st, id, correct, fate, now, k);
    case FollowUp(id, dbOk, _) => FollowedOwned(st, id, dbOk, k);
    case Sweep(now, ids) => SweptOwned(st, ids, k);
    case Restart(_, _) => RestartOwned(st, e, k);
    case Close(_) => AlikeOwned(st, Effect(st, e).value, k);
    case Reject(id, _) => assert Owned(st, id); TakeOwned(st, e, k);
    case TimerFires(id, _) => assert Owned(st, id); TakeOwned(st, e, k);
    case Prune(id, _) => assert Owned(st, id); TakeOwned(st, e, k);
    case Store(id, _, _) => assert Owned(st, id); StoreOwned(st, e, k);
    case _ => assert Owned(st, e.id); ReserveOwned(st, e, k);
  }

  lemma StepOwned(st: State, e: Event)
    requires OwnedAll(st) && Step(st, e).Some?
    ensures OwnedAll(Step(st, e).value)
  {
    var after := Step(st, e).value;
    hide Effect, Owned;
    forall k ensures Owned(after, k) {
      EffectOwned(st, e, k);
      AlikeOwned(Effect(st, e).value, after, k);
    }
  }

  // ---- Limits ----

  /** At most five are pending. */
  predicate Capped(st: State) { |st.pending| <= MAX_PENDING }

  /** At most ten wrong codes are younger than a day, and with ten of them nothing is pending. */
  predicate Guarded(st: State) {
    && |Recent(st.wrong, st.clock)| <= MAX_WRONG && |st.wrong| <= MAX_WRONG
    && (st.pending != map[] ==> |Recent(st.wrong, st.clock)| < MAX_WRONG)
  }

  /** Only Reserve adds to memory, and only a counted wrong code to the window. */
  lemma OnlyReserveAdds(st: State, e: Event)
    requires Effect(st, e).Some? && !e.Reserve? && !e.Confirm?
    ensures Effect(st, e).value.pending.Keys <= st.pending.Keys && Effect(st, e).value.wrong == st.wrong
  {
  }

  lemma ConfirmNarrows(st: State, id: string, correct: bool, fate: Fate, now: int)
    ensures var after := Confirmed(st, id, correct, fate, now);
            && after.pending.Keys <= st.pending.Keys
            && (after.wrong == st.wrong
                || (id in st.pending && after.wrong == Recent(st.wrong, now) + [now]
                    && (|after.wrong| >= MAX_WRONG ==> after.pending == map[])))
  {
    hide Recent;
  }

  lemma StepCapped(st: State, e: Event)
    requires Capped(st) && Step(st, e).Some?
    ensures Capped(Step(st, e).value)
  {
    var after := Effect(st, e).value;
    if e.Reserve? {
      hide Recent;
    } else {
      if e.Confirm? { ConfirmNarrows(st, e.id, e.correct, e.fate, e.now); } else { OnlyReserveAdds(st, e); }
      hide Effect;
      Fewer(after.pending.Keys, st.pending.Keys);
      assert |after.pending| == |after.pending.Keys|;
    }
  }

  lemma StepGuarded(st: State, e: Event)
    requires Guarded(st) && Step(st, e).Some?
    ensures Guarded(Step(st, e).value)
  {
    var now, after := e.now, Effect(st, e).value;
    RecentShrinks(st.wrong, st.clock, now);
    if e.Confirm? {
      ConfirmNarrows(st, e.id, e.correct, e.fate, now);
      RecentAdd(st.wrong, now);
      hide Confirmed, Recent;
      assert after.pending != map[] ==> st.pending != map[];
    } else if e.Reserve? {
      hide Recent;
    } else {
      OnlyReserveAdds(st, e);
      hide Effect, Recent;
      assert after.pending != map[] ==> st.pending != map[];
    }
  }

  // ---- Whole runs ----

  ghost predicate Safe(st: State) { OwnedAll(st) && Capped(st) && Guarded(st) }

  /** Every interleaving, every database failure and every restart keeps the store safe. */
  lemma {:induction false} RunIsSafe(start: int, wrong: seq<int>, es: seq<Event>)
    requires |wrong| <= MAX_WRONG && Run(Start(start, wrong), es).Some?
    ensures Safe(Run(Start(start, wrong), es).value)
    decreases |es|
  {
    if es == [] {
      RecentShrinks(wrong, start, start);
    } else {
      RunIsSafe(start, wrong, es[..|es| - 1]);
      var before, e := Run(Start(start, wrong), es[..|es| - 1]).value, es[|es| - 1];
      hide OwnedAll, Capped, Guarded, Step;
      StepOwned(before, e);
      StepCapped(before, e);
      StepGuarded(before, e);
    }
  }

  /** An action commits only when its own pending approval is confirmed in time, in the step that approves its row. */
  lemma CommitIsApproval(st: State, e: Event, id: string)
    requires Step(st, e).Some? && Step(st, e).value.performed[id] != st.performed[id]
    ensures e.Confirm? && e.id == id && e.correct && e.fate.Works?
    ensures id in st.pending && !st.pending[id].reserved && id in st.rows && !Overdue(st.rows[id], e.now)
    ensures var after := Step(st, e).value;
            && after.performed[id] == st.performed[id] + 1
            && id in after.rows && after.rows[id].state.Approved? && id !in after.pending
  {
    hide Recent;
  }

  lemma GoneStep(st: State, e: Event, id: string)
    requires Step(st, e).Some? && id in st.used && id !in st.pending
    ensures var after := Step(st, e).value;
            id in after.used && id !in after.pending && after.performed[id] == st.performed[id]
  {
    if Step(st, e).value.performed[id] != st.performed[id] { CommitIsApproval(st, e, id); }
    var after := Effect(st, e).value;
    if e.Confirm? { ConfirmNarrows(st, e.id, e.correct, e.fate, e.now); ConfirmKeepsUsed(st, e); }
    else if !e.Reserve? { OnlyReserveAdds(st, e); UsedKept(st, e); }
    else { hide Recent; }
  }

  lemma ConfirmKeepsUsed(st: State, e: Event)
    requires e.Confirm?
    ensures Confirmed(st, e.id, e.correct, e.fate, e.now).used == st.used
  {
    hide Recent;
  }

  lemma UsedKept(st: State, e: Event)
    requires Effect(st, e).Some? && !e.Reserve? && !e.Confirm?
    ensures Effect(st, e).value.used == st.used
  {
  }

  /** Once an approval has left memory it is never pending and never performed again, whatever follows. */
  lemma {:induction false} GoneForGood(st: State, es: seq<Event>, id: string)
    requires id in st.used && id !in st.pending && Run(st, es).Some?
    ensures var after := Run(st, es).value;
            id in after.used && id !in after.pending && after.performed[id] == st.performed[id]
    decreases |es|
  {
    if es != [] {
      GoneForGood(st, es[..|es| - 1], id);
      GoneStep(Run(st, es[..|es| - 1]).value, es[|es| - 1], id);
    }
  }
}
