/**
 What an answer does to an approval, and what else ends one. The conditions are
 those of approval.md, stated on the state before the step.
 */
module ApprovalAnswers {
  import opened Base
  import opened RollingDay
  import opened Approval

  /** The approval is there to be answered: finished, pending and not past its ten minutes. */
  predicate Answerable(st: State, id: string, now: int) {
    && id in st.pending && !st.pending[id].reserved && id in st.rows
    && now < st.rows[id].created + 600_000
  }

  predicate Late(st: State, id: string, now: int) {
    && id in st.pending && !st.pending[id].reserved && id in st.rows
    && now >= st.rows[id].created + 600_000
  }

  /** The row of id goes to this state, and no other row changes. */
  predicate RowBecomes(st: State, after: State, id: string, state: RowState, attempts: nat) {
    id in st.rows && after.rows == st.rows[id := Row(state, attempts, st.rows[id].created)]
  }

  /** id leaves memory with this still owed to it, and nothing else does. */
  predicate Taken(st: State, after: State, id: string, what: Owed) {
    after.pending == st.pending - {id} && after.owed == st.owed[id := what]
  }

  /** Only the clock moves. */
  predicate Unmoved(st: State, after: State) { after == st.(clock := after.clock) }

  /** Nothing is performed, no hook runs, and the wrong-code window stays. */
  predicate NoDeed(st: State, after: State) {
    after.performed == st.performed && after.hooks == st.hooks && after.wrong == st.wrong
  }

  /**
   The right code in time: with a working database the action is performed once more, the row is
   approved and the approval gone, however many wrong codes came before.
   */
  lemma RightCodeApproves(st: State, id: string, now: int)
    requires OwnedAll(st) && Answerable(st, id, now) && now >= st.clock
    ensures var after := Step(st, Confirm(id, true, Works, now));
            && after.Some? && after.value.performed == st.performed + multiset{id}
            && RowBecomes(st, after.value, id, Approved, st.rows[id].attempts)
            && after.value.pending == st.pending - {id} && after.value.owed == st.owed
            && after.value.hooks == st.hooks && after.value.wrong == st.wrong
  {
    hide Recent;
  }

  /** An action is performed by a step exactly when that step is the right code, in time, with a working database. */
  lemma PerformedExactly(st: State, e: Event, id: string)
    requires OwnedAll(st) && Step(st, e).Some?
    ensures Step(st, e).value.performed[id] == st.performed[id] + 1
       <==> e.Confirm? && e.id == id && e.correct && e.fate.Works? && Answerable(st, id, e.now)
    ensures Step(st, e).value.performed[id] == st.performed[id]
         || Step(st, e).value.performed[id] == st.performed[id] + 1
  {
    hide OwnedAll, Step;
    if e.Confirm? && e.id == id && e.correct && e.fate.Works? && Answerable(st, id, e.now) {
      StepClock(st, e);
      RightCodeApproves(st, id, e.now);
    } else if Step(st, e).value.performed[id] != st.performed[id] {
      CommitIsApproval(st, e, id);
    }
  }

  lemma StepClock(st: State, e: Event)
    requires Step(st, e).Some?
    ensures e.now >= st.clock && Step(st, e).value.clock == e.now
  {
    hide Effect;
  }

  /** An answer after the ten minutes: the row expires, whatever the code, and OnReject is owed. */
  lemma LateAnswerExpires(st: State, id: string, correct: bool, fate: Fate, now: int)
    requires Late(st, id, now) && now >= st.clock && !fate.ReadFails?
    ensures var after := Step(st, Confirm(id, correct, fate, now));
            && after.Some? && RowBecomes(st, after.value, id, Expired, st.rows[id].attempts)
            && Taken(st, after.value, id, Hook(false)) && NoDeed(st, after.value)
  {
    hide Recent;
  }

  /** The right code with a failing precondition: the row still waits, its rejection and OnReject are owed. */
  lemma FailedConditionRejects(st: State, id: string, now: int)
    requires Answerable(st, id, now) && now >= st.clock
    ensures var after := Step(st, Confirm(id, true, ConditionFails, now));
            && after.Some? && after.value.rows == st.rows
            && Taken(st, after.value, id, RejectThenHook) && NoDeed(st, after.value)
  {
    hide Recent;
  }

  /** The right code, but the transaction or the action fails: nothing changes and the approval can be tried again. */
  lemma FailedActionKeeps(st: State, id: string, fate: Fate, now: int)
    requires Answerable(st, id, now) && now >= st.clock && (fate.TxFails? || fate.PerformFails?)
    ensures var after := Step(st, Confirm(id, true, fate, now)); after.Some? && Unmoved(st, after.value)
  {
    hide Recent;
  }

  /** Nothing to answer: unknown, still being created, or unreadable. */
  lemma NothingToAnswer(st: State, id: string, correct: bool, fate: Fate, now: int)
    requires now >= st.clock && (id !in st.pending || st.pending[id].reserved || id !in st.rows || fate.ReadFails?)
    ensures var after := Step(st, Confirm(id, correct, fate, now)); after.Some? && Unmoved(st, after.value)
  {
    hide Recent;
  }

  /** What was taken for rejection: a row still waiting is rejected when the write works, then OnReject runs. */
  lemma RejectionSettles(st: State, id: string, dbOk: bool, now: int)
    requires id in st.owed && st.owed[id].RejectThenHook? && now >= st.clock
    ensures var mid := Step(st, FollowUp(id, dbOk, now));
            && mid.Some? && mid.value.pending == st.pending && NoDeed(st, mid.value)
            && (if dbOk && id in st.rows then RowBecomes(st, mid.value, id, Rejected, st.rows[id].attempts)
                else mid.value.rows == st.rows)
            && var after := Step(mid.value, FollowUp(id, dbOk, now));
               && after.Some? && after.value.rows == mid.value.rows && after.value.pending == st.pending
               && after.value.hooks == st.hooks + multiset{id} && id !in after.value.owed
               && after.value.performed == st.performed
  {
    hide Recent;
  }

  /** What the timer takes: its row expires when the write works, OnReject runs once, a failed write is retried. */
  lemma ExpirySettles(st: State, id: string, dbOk: bool, now: int)
    requires id in st.owed && st.owed[id].ExpireThenHook? && now >= st.clock
    requires id in st.rows && st.rows[id].state.Waiting?
    ensures var mid := Step(st, FollowUp(id, dbOk, now));
            && mid.Some? && mid.value.pending == st.pending && NoDeed(st, mid.value)
            && (if dbOk then RowBecomes(st, mid.value, id, Expired, st.rows[id].attempts)
                else mid.value.rows == st.rows)
            && var after := Step(mid.value, FollowUp(id, dbOk, now));
               && after.Some? && after.value.rows == mid.value.rows && after.value.pending == st.pending
               && after.value.hooks == st.hooks + multiset{id} && after.value.performed == st.performed
               && (id in after.value.owed <==> !dbOk) && (!dbOk ==> after.value.owed[id].Retry?)
  {
    hide Recent;
  }

  /** The write that failed, again: it expires a row that still waits and changes nothing else. */
  lemma RetrySettles(st: State, id: string, now: int)
    requires id in st.owed && st.owed[id].Retry? && now >= st.clock
    ensures var after := Step(st, FollowUp(id, true, now));
            && after.Some? && after.value.owed == st.owed - {id} && after.value.pending == st.pending
            && NoDeed(st, after.value)
            && (if id in st.rows && st.rows[id].state.Waiting? then
                  RowBecomes(st, after.value, id, Expired, st.rows[id].attempts)
                else after.value.rows == st.rows)
  {
    hide Recent;
  }

  /** A rejection and the timer take a finished approval, each with its own write to come; no row changes yet. */
  lemma TakenExactly(st: State, id: string, now: int)
    requires now >= st.clock && id in st.pending && !st.pending[id].reserved
    ensures var a := Step(st, Reject(id, now));
            a.Some? && Taken(st, a.value, id, RejectThenHook) && a.value.rows == st.rows && NoDeed(st, a.value)
    ensures var b := Step(st, TimerFires(id, now));
            b.Some? && Taken(st, b.value, id, ExpireThenHook) && b.value.rows == st.rows && NoDeed(st, b.value)
  {
    hide Recent;
  }

  /** A sweep takes only what is past its ten minutes, expires its rows, and leaves everything else. */
  lemma SweptExactly(st: State, ids: set<string>, now: int)
    requires now >= st.clock
    ensures var r := Step(st, Sweep(now, ids));
            && (r.Some? <==> forall id | id in ids :: Late(st, id, now))
            && (r.Some? ==>
                  && NoDeed(st, r.value) && r.value.pending == st.pending - ids && r.value.rows.Keys == st.rows.Keys
                  && (forall id | id in st.rows :: r.value.rows[id]
                        == if id in ids then Row(Expired, st.rows[id].attempts, st.rows[id].created) else st.rows[id])
                  && (forall id | id in ids :: id in r.value.owed && r.value.owed[id] == Hook(false))
                  && forall id | id !in ids :: (id in r.value.owed <==> id in st.owed)
                                               && (id in st.owed ==> r.value.owed[id] == st.owed[id]))
  {
    hide Recent;
    assert forall id | id in ids :: CanExpire(st, id, now) == Late(st, id, now);
  }

  // ---- Wrong codes ----

  /** The window after a wrong code at now. */
  function WindowAfter(wrong: seq<int>, now: int): seq<int> { Recent(wrong, now) + [now] }

  /**
   A wrong code in time, database working: it is counted in the row, in memory and in the day's window.
   The third rejects the row, and the tenth of a day leaves nothing pending.
   */
  lemma WrongCodeCounts(st: State, id: string, now: int)
    requires OwnedAll(st) && Answerable(st, id, now) && now >= st.clock
    ensures var n, window := st.rows[id].attempts + 1, WindowAfter(st.wrong, now);
            var after := Step(st, Confirm(id, false, Works, now));
            && after.Some? && after.value.wrong == window
            && after.value.performed == st.performed && after.value.hooks == st.hooks
            && RowBecomes(st, after.value, id, if n >= 3 then Rejected else Waiting, n)
            && if |window| >= 10 then after.value.pending == map[]
               else if n >= 3 then Taken(st, after.value, id, Hook(false))
               else after.value.pending == st.pending[id := Entry(false, n, st.pending[id].created)]
  {
    hide Recent;
    assert Owned(st, id);
  }

  /** The tenth wrong code of a day: every other finished approval is taken for rejection. */
  lemma LockoutRejectsAll(st: State, id: string, now: int, k: string)
    requires OwnedAll(st) && Answerable(st, id, now) && now >= st.clock && |WindowAfter(st.wrong, now)| >= 10
    requires k in st.pending && k != id && !st.pending[k].reserved
    ensures var after := Step(st, Confirm(id, false, Works, now));
            after.Some? && k in after.value.owed && after.value.owed[k] == RejectThenHook
  {
    hide Recent;
    assert Owned(st, id);
  }

  /** A wrong code whose count cannot be written: the approval is taken for rejection at once. */
  lemma UncountedCodeRejects(st: State, id: string, fate: Fate, now: int)
    requires Answerable(st, id, now) && now >= st.clock && !fate.Works? && !fate.ReadFails?
    ensures var after := Step(st, Confirm(id, false, fate, now));
            && after.Some? && after.value.rows == st.rows
            && Taken(st, after.value, id, RejectThenHook) && NoDeed(st, after.value)
  {
    hide Recent;
  }

  // ---- What ends an approval ----

  /** A counted wrong code for this approval. */
  predicate Miss(st: State, e: Event, id: string) {
    e.Confirm? && e.id == id && !e.correct && e.fate.Works? && Answerable(st, id, e.now)
  }

  /** What an answer to x does to id. */
  predicate AnswerEnds(st: State, x: string, correct: bool, fate: Fate, now: int, id: string)
    requires id in st.pending && id in st.rows
  {
    var full := !correct && fate.Works? && Answerable(st, x, now) && |WindowAfter(st.wrong, now)| >= 10;
    if x != id then full
    else if fate.ReadFails? then false
    else
      || Late(st, id, now)
      || (correct && (fate.Works? || fate.ConditionFails?))
      || (!correct && (!fate.Works? || full || st.rows[id].attempts + 1 >= 3))
  }

  /** What ends a finished approval: nothing but these. */
  predicate Ends(st: State, e: Event, id: string)
    requires id in st.pending && id in st.rows
  {
    match e
    case Sweep(_, ids) => id in ids
    case Reject(x, _) => x == id
    case TimerFires(x, _) => x == id
    case Restart(_, _) => true
    case Confirm(x, correct, fate, now) => AnswerEnds(st, x, correct, fate, now, id)
    case _ => false
  }

  /** The approval is pending as before, with its row still waiting, and one more attempt if a wrong code came. */
  predicate Stays(st: State, e: Event, id: string, after: State)
    requires id in st.pending && id in st.rows
  {
    var more := if Miss(st, e, id) then 1 else 0;
    && id in after.pending && after.pending[id] == st.pending[id].(attempts := st.pending[id].attempts + more)
    && id in after.rows && after.rows[id].created == st.rows[id].created && after.rows[id].state.Waiting?
  }

  lemma OwnAnswer(st: State, id: string, correct: bool, fate: Fate, now: int)
    requires OwnedAll(st) && id in st.pending && !st.pending[id].reserved && now >= st.clock
    ensures id in st.rows
    ensures var e := Confirm(id, correct, fate, now);
            var after := Step(st, e);
            after.Some? && if Ends(st, e, id) then id !in after.value.pending else Stays(st, e, id, after.value)
  {
    assert Owned(st, id);
    hide Step, OwnedAll, Recent;
    if fate.ReadFails? {
      NothingToAnswer(st, id, correct, fate, now);
    } else if Late(st, id, now) {
      LateAnswerExpires(st, id, correct, fate, now);
    } else if !correct {
      if fate.Works? { WrongCodeCounts(st, id, now); } else { UncountedCodeRejects(st, id, fate, now); }
    } else if fate.Works? {
      RightCodeApproves(st, id, now);
    } else if fate.ConditionFails? {
      FailedConditionRejects(st, id, now);
    } else {
      FailedActionKeeps(st, id, fate, now);
    }
  }

  lemma OtherAnswer(st: State, x: string, correct: bool, fate: Fate, now: int, id: string)
    requires OwnedAll(st) && id in st.pending && !st.pending[id].reserved && now >= st.clock && x != id
    ensures id in st.rows
    ensures var e := Confirm(x, correct, fate, now);
            var after := Step(st, e);
            after.Some? && if Ends(st, e, id) then id !in after.value.pending else Stays(st, e, id, after.value)
  {
    assert Owned(st, id);
    hide Step, OwnedAll, Recent;
    if x !in st.pending || st.pending[x].reserved || x !in st.rows || fate.ReadFails? {
      NothingToAnswer(st, x, correct, fate, now);
    } else if Late(st, x, now) {
      LateAnswerExpires(st, x, correct, fate, now);
    } else if !correct {
      if fate.Works? { WrongCodeCounts(st, x, now); } else { UncountedCodeRejects(st, x, fate, now); }
    } else if fate.Works? {
      RightCodeApproves(st, x, now);
    } else if fate.ConditionFails? {
      FailedConditionRejects(st, x, now);
    } else {
      FailedActionKeeps(st, x, fate, now);
    }
  }

  lemma SweepOrRestart(st: State, e: Event, id: string)
    requires (e.Sweep? || e.Restart?) && id in st.pending && id in st.rows && st.rows[id].state.Waiting?
    requires Step(st, e).Some?
    ensures var after := Step(st, e).value;
            if Ends(st, e, id) then id !in after.pending else Stays(st, e, id, after)
  {
    hide Recent, Created;
  }

  lemma OtherEvent(st: State, e: Event, id: string)
    requires OwnedAll(st) && id in st.pending && !st.pending[id].reserved && !e.Confirm? && Step(st, e).Some?
    ensures id in st.rows
    ensures var after := Step(st, e).value;
            if Ends(st, e, id) then id !in after.pending else Stays(st, e, id, after)
  {
    assert Owned(st, id);
    assert id in st.rows && st.rows[id].state.Waiting? && id !in st.owed;
    hide Recent, OwnedAll, Followed, Owned, Created;
    if e.Sweep? || e.Restart? {
      SweepOrRestart(st, e, id);
    } else {
      if e.FollowUp? { FollowedElsewhere(st, e.id, e.dbOk, id); }
      hide Swept;
    }
  }

  /** A finished approval leaves memory exactly for one of these reasons, and otherwise stays as it is. */
  lemma EndsExactly(st: State, e: Event, id: string)
    requires OwnedAll(st) && id in st.pending && !st.pending[id].reserved && Step(st, e).Some?
    ensures id in st.rows
    ensures var after := Step(st, e).value;
            if Ends(st, e, id) then id !in after.pending else Stays(st, e, id, after)
  {
    StepClock(st, e);
    hide Step, OwnedAll, Ends, Stays;
    if e.Confirm? {
      if e.id == id { OwnAnswer(st, id, e.correct, e.fate, e.now); }
      else { OtherAnswer(st, e.id, e.correct, e.fate, e.now, id); }
    } else {
      OtherEvent(st, e, id);
    }
  }

  // ---- Wrong codes and then the right one ----

  function Answers(id: string, times: seq<int>): seq<Event> {
    seq(|times|, i requires 0 <= i < |times| => Confirm(id, false, Works, times[i]))
  }

  /** The window after wrong codes at these times. */
  function Window(wrong: seq<int>, times: seq<int>): seq<int> {
    if times == [] then wrong else WindowAfter(Window(wrong, times[..|times| - 1]), times[|times| - 1])
  }

  /** Times in order, from the clock on, and before the approval's ten minutes are over. */
  predicate InTime(st: State, id: string, times: seq<int>) {
    && id in st.rows
    && (forall i | 0 <= i < |times| :: st.clock <= times[i] < st.rows[id].created + 600_000)
    && forall i, j | 0 <= i < j < |times| :: times[i] <= times[j]
  }

  /** After that many wrong codes the approval is not rejected yet, and the day's window was never full. */
  predicate Alive(st: State, id: string, times: seq<int>) {
    && id in st.rows && st.rows[id].attempts + |times| < 3
    && forall k | 1 <= k <= |times| :: |Window(st.wrong, times[..k])| < 10
  }

  lemma RunSnoc(st: State, es: seq<Event>, e: Event)
    ensures Run(st, es + [e]) == var r := Run(st, es); if r.None? then None else Step(r.value, e)
  {
    hide Step;
    assert (es + [e])[..|es|] == es;
  }

  lemma AliveNext(st: State, id: string, times: seq<int>)
    requires times != []
    ensures var init := times[..|times| - 1];
            Alive(st, id, times) <==>
              && Alive(st, id, init) && id in st.rows && st.rows[id].attempts + |times| < 3
              && |Window(st.wrong, times)| < 10
  {
    hide Window;
    var init := times[..|times| - 1];
    assert times[..|times|] == times;
    assert forall k | 1 <= k <= |init| :: init[..k] == times[..k];
  }

  lemma {:induction false} WrongCodes(st: State, id: string, times: seq<int>)
    requires OwnedAll(st) && id in st.pending && !st.pending[id].reserved && InTime(st, id, times)
    ensures var r := Run(st, Answers(id, times));
            && r.Some? && OwnedAll(r.value) && r.value.performed == st.performed
            && r.value.clock <= (if times == [] then st.clock else times[|times| - 1])
            && if Alive(st, id, times) then
                 && id in r.value.pending && !r.value.pending[id].reserved && id in r.value.rows
                 && r.value.rows[id].created == st.rows[id].created
                 && r.value.rows[id].attempts == st.rows[id].attempts + |times|
                 && r.value.wrong == Window(st.wrong, times)
               else id !in r.value.pending
    decreases |times|
  {
    hide OwnedAll, Step;
    if times == [] {
      NoWrongCode(st, id);
    } else {
      var init, t := times[..|times| - 1], times[|times| - 1];
      WrongCodes(st, id, init);
      AliveNext(st, id, times);
      assert Answers(id, times) == Answers(id, init) + [Confirm(id, false, Works, t)];
      RunSnoc(st, Answers(id, init), Confirm(id, false, Works, t));
      var before := Run(st, Answers(id, init)).value;
      assert init != [] ==> init[|init| - 1] == times[|times| - 2];
      hide Run, Alive, Answers;
      OneWrongCode(before, id, t);
    }
  }

  lemma NoWrongCode(st: State, id: string)
    requires OwnedAll(st) && id in st.pending && !st.pending[id].reserved
    ensures id in st.rows && (st.rows[id].attempts < 3) && Answers(id, []) == []
  {
    assert Owned(st, id);
  }

  lemma OneWrongCode(st: State, id: string, t: int)
    requires OwnedAll(st) && t >= st.clock
    requires id in st.pending ==> Answerable(st, id, t)
    ensures var r := Step(st, Confirm(id, false, Works, t));
            && r.Some? && OwnedAll(r.value) && r.value.performed == st.performed && r.value.clock == t
            && (id !in st.pending ==> id !in r.value.pending)
            && (id in st.pending ==>
                  var n, window := st.rows[id].attempts + 1, WindowAfter(st.wrong, t);
                  if n < 3 && |window| < 10 then
                    && id in r.value.pending && !r.value.pending[id].reserved && id in r.value.rows
                    && r.value.rows[id].created == st.rows[id].created && r.value.rows[id].attempts == n
                    && r.value.wrong == window
                  else id !in r.value.pending)
  {
    var e := Confirm(id, false, Works, t);
    hide Step, OwnedAll, Recent;
    if id in st.pending { WrongCodeCounts(st, id, t); } else { NothingToAnswer(st, id, false, Works, t); }
    StepOwned(st, e);
    StepClock(st, e);
  }

  /**
   Any number of wrong codes and then the right one, all in time and with a working database: the
   action is performed if and only if there were fewer than three attempts and the tenth wrong
   code of a day was not among them.
   */
  lemma RightCodeInTheEnd(st: State, id: string, times: seq<int>, now: int)
    requires OwnedAll(st) && id in st.pending && !st.pending[id].reserved && InTime(st, id, times + [now])
    ensures var r := Run(st, Answers(id, times) + [Confirm(id, true, Works, now)]);
            && r.Some?
            && (Alive(st, id, times) ==> r.value.performed == st.performed + multiset{id}
                                         && id in r.value.rows && r.value.rows[id].state.Approved?)
            && (!Alive(st, id, times) ==> r.value.performed == st.performed)
            && id !in r.value.pending
  {
    var e := Confirm(id, true, Works, now);
    assert (times + [now])[|times|] == now && forall i | 0 <= i < |times| :: times[i] == (times + [now])[i];
    WrongCodes(st, id, times);
    RunSnoc(st, Answers(id, times), e);
    var before := Run(st, Answers(id, times)).value;
    hide Run, Step, Alive, OwnedAll, Answers;
    if id in before.pending {
      RightCodeApproves(before, id, now);
    } else {
      NothingToAnswer(before, id, true, Works, now);
    }
  }
}
