/**
 The store's methods, each proved to be the step the state machine takes. What
 the database does is a parameter. The ghost fields are the machine's record of
 what callers still owe and of the past.
 */
module ApprovalStore {
  import opened Base
  import opened Approval
  import opened RollingDay

  /** The loop of dropAllLocked over the entries. */
  method FinishedOf(pending: map<string, Entry>) returns (ids: set<string>)
    ensures ids == set id | id in pending && !pending[id].reserved
  {
    ids := {};
    var todo := pending.Keys;
    while todo != {}
      invariant todo <= pending.Keys
      invariant ids == set id | id in pending && id !in todo && !pending[id].reserved
    {
      var id :| id in todo;
      if !pending[id].reserved { ids := ids + {id}; }
      todo := todo - {id};
    }
  }

  class Store {
    var pending: map<string, Entry>
    var rows: map<string, Row>
    var wrong: seq<int>
    var closed: bool
    ghost var owed: map<string, Owed>
    ghost var clock: int
    ghost var used: set<string>
    ghost var created: set<string>
    ghost var performed: multiset<string>
    ghost var hooks: multiset<string>
    ghost var tested: multiset<string>

    ghost function View(): State
      reads this
    {
      State(pending, rows, wrong, owed, closed, clock, used, created, performed, hooks, tested)
    }

    constructor (now: int, stored: seq<int>)
      ensures View() == Start(now, stored)
    {
      pending, rows, wrong, closed := map[], map[], stored, false;
      owed, clock, used, created := map[], now, {}, {};
      performed, hooks, tested := multiset{}, multiset{}, multiset{};
    }

    /** wrongCodesIn: the stored times that are still inside the window. */
    method WrongCodes(now: int) returns (out: seq<int>)
      ensures out == Recent(wrong, now)
    {
      var cutoff := now - DAY;
      out := [];
      for i := 0 to |wrong|
        invariant out == Recent(wrong[..i], now)
      {
        assert wrong[..i + 1][..i] == wrong[..i];
        if wrong[i] > cutoff { out := out + [wrong[i]]; }
      }
      assert wrong[..|wrong|] == wrong;
    }

    /** recordWrongCodeIn. */
    method RecordWrongCode(now: int) returns (full: bool)
      modifies this`wrong
      ensures wrong == Recent(old(wrong), now) + [now] && (full <==> |wrong| >= MAX_WRONG)
    {
      var times := WrongCodes(now);
      wrong := times + [now];
      full := |wrong| >= MAX_WRONG;
    }

    /** dropAllLocked. */
    method DropAllLocked() returns (entries: set<string>)
      modifies this`pending, this`owed
      ensures View() == DropAll(old(View())) && entries == Finished(old(View()))
    {
      entries := FinishedOf(pending);
      ghost var dropped := map id | id in entries :: RejectThenHook;
      pending, owed := map[], owed + dropped;
    }

    /** sweepExpiredLocked: entries in any order, until the database fails on one. */
    method SweepExpired(now: int, fails: set<string>) returns (ids: set<string>)
      modifies this`pending, this`rows, this`owed
      ensures View() == Swept(old(View()), ids) && forall id | id in ids :: CanExpire(old(View()), id, now)
      ensures fails == {} && (forall id | id in old(pending) && !old(pending)[id].reserved :: id in old(rows))
              ==> ids == set id | id in old(pending) && CanExpire(old(View()), id, now)
    {
      ghost var was := View();
      ids := {};
      SweptNone(was, ids);
      hide Swept, Expire;
      var todo := pending.Keys;
      while todo != {}
        invariant todo <= was.pending.Keys && ids <= was.pending.Keys - todo
        invariant View() == Swept(was, ids)
        invariant forall id | id in ids :: CanExpire(was, id, now)
        invariant forall id | id in was.pending && id !in todo && CanExpire(was, id, now) :: id in ids
      {
        var id :| id in todo;
        SweptUntouched(was, ids, id);
        if !pending[id].reserved {
          if id !in rows || id in fails { return; }
          if Overdue(rows[id], now) {
            SweepOne(was, ids, id);
            ExpirePending(id);
            ids := ids + {id};
          }
        }
        todo := todo - {id};
      }
    }

    /** The first critical section of Create, after its sweep: a slot is reserved unless a limit refuses. */
    method Reserve(id: string, now: int) returns (ok: bool)
      requires id !in used
      modifies this`pending, this`used
      ensures Effect(old(View()), Event.Reserve(id, now)) == Some(View()) && (ok <==> id in used)
      ensures ok <==> && |Recent(wrong, now)| < 10 && |old(pending)| < 5
                      && |Created(rows, now)| < 20 && !closed
    {
      var times := WrongCodes(now);
      if |times| >= MAX_WRONG || |pending| >= MAX_PENDING { return false; }
      var hourly := |set row | row in rows && rows[row].created >= now - HOUR|;
      if hourly >= MAX_PER_HOUR || closed { return false; }
      pending := pending[id := Entry(true, 0, now)];
      used := used + {id};
      ok := true;
    }

    /** The last critical section of Create: the row is written only if the reservation survived. */
    method FinishCreate(id: string, dbOk: bool, now: int) returns (ok: bool)
      requires id in pending ==> pending[id].reserved
      modifies this`pending, this`rows, this`created
      ensures Effect(old(View()), Event.Store(id, dbOk, now)) == Some(View())
      ensures ok <==> id in old(pending) && !closed && dbOk
    {
      if id !in pending || closed {
        pending := pending - {id};
        return false;
      }
      if !dbOk {
        pending := pending - {id};
        return false;
      }
      var at := pending[id].created;
      rows := rows[id := Row(Waiting, 0, at)];
      pending := pending[id := Entry(false, 0, at)];
      created := created + {id};
      ok := true;
    }

    /** recordBadCode: both counts in one transaction. */
    method RecordBadCode(id: string, now: int) returns (rejected: bool, full: bool)
      requires id in rows
      modifies this`rows, this`wrong
      ensures View() == Counted(old(View()), id, now)
      ensures (rejected <==> rows[id].state.Rejected?) && (full <==> |wrong| >= MAX_WRONG)
    {
      var attempts := rows[id].attempts + 1;
      rejected := attempts >= MAX_ATTEMPTS;
      rows := rows[id := rows[id].(attempts := attempts, state := if rejected then Rejected else Waiting)];
      full := RecordWrongCode(now);
    }

    /** The wrong-code branch of confirm. */
    method Wrong(id: string, dbOk: bool, now: int)
      requires id in pending && !pending[id].reserved && id in rows
      modifies this
      ensures View() == WrongCode(old(View()), id, dbOk, now)
    {
      var seen := pending[id].attempts + 1;
      tested := tested + multiset{id};
      if !dbOk {
        pending, owed := pending - {id}, owed[id := RejectThenHook];
        return;
      }
      var rejected, full := RecordBadCode(id, now);
      ghost var counted := View();
      if rejected {
        pending, owed := pending - {id}, owed[id := Hook(false)];
      } else if seen >= MAX_ATTEMPTS {
        pending, owed := pending - {id}, owed[id := RejectThenHook];
      } else {
        pending := pending[id := pending[id].(attempts := seen)];
      }
      assert View() == Judged(counted, id);
      if full { var _ := DropAllLocked(); }
    }

    /** The branch of confirm for a code that is right. */
    method Right(id: string, fate: Fate) returns (approved: bool)
      requires id in pending && id in rows
      modifies this`pending, this`rows, this`owed, this`performed
      ensures approved == fate.Works?
      ensures View() == if fate.ConditionFails? then Settle(old(View()), id, RejectThenHook)
                        else if fate.Works? then Approve(old(View()), id) else old(View())
    {
      approved := false;
      match fate
      case ConditionFails => pending, owed := pending - {id}, owed[id := RejectThenHook];
      case Works =>
        rows := rows[id := rows[id].(state := Approved)];
        performed := performed + multiset{id};
        pending := pending - {id};
        approved := true;
      case _ =>
    }

    method ExpirePending(id: string)
      requires id in pending && id in rows
      modifies this`pending, this`rows, this`owed
      ensures View() == Expire(old(View()), id) && performed == old(performed)
    {
      rows := rows[id := rows[id].(state := Expired)];
      pending, owed := pending - {id}, owed[id := Hook(false)];
    }

    /** confirm: one answer, under the mutex from the lookup to the commit. */
    method Confirm(id: string, correct: bool, fate: Fate, now: int) returns (approved: bool)
      modifies this
      ensures View() == Confirmed(old(View()), id, correct, fate, now)
      ensures approved ==> id in old(rows) && View() == Approve(old(View()), id)
      ensures !approved ==> performed == old(performed)
    {
      hide WrongCode, Expire, Approve, Settle;
      approved := false;
      if id !in pending || pending[id].reserved { return; }
      if id !in rows || fate.ReadFails? { return; }
      if Overdue(rows[id], now) {
        ExpirePending(id);
        return;
      }
      if !correct {
        WrongPerformsNothing(View(), id, fate.Works?, now);
        Wrong(id, fate.Works?, now);
        return;
      }
      approved := Right(id, fate);
      if !approved { SettlePerformsNothing(old(View()), id); }
    }

    /** takePending, for a rejection by the user, the daemon or a closed session. */
    method TakePending(id: string) returns (ok: bool)
      modifies this`pending, this`owed
      ensures Effect(old(View()), Event.Reject(id, clock)) == Some(View())
      ensures ok <==> id in old(pending) && !old(pending)[id].reserved
    {
      if id !in pending || pending[id].reserved { return false; }
      pending, owed := pending - {id}, owed[id := RejectThenHook];
      ok := true;
    }

    /** The critical section of expireNow. */
    method ExpireNow(id: string)
      requires id in pending ==> !pending[id].reserved
      modifies this`pending, this`owed
      ensures Effect(old(View()), TimerFires(id, clock)) == Some(View())
    {
      if id in pending { pending, owed := pending - {id}, owed[id := ExpireThenHook]; }
    }
  }

  lemma SweptRows(rows: map<string, Row>, ids: set<string>, id: string)
    requires id in rows && id !in ids
    ensures (map k | k in rows :: if k in ids + {id} then rows[k].(state := Expired) else rows[k])
         == (map k | k in rows :: if k in ids then rows[k].(state := Expired) else rows[k])
            [id := rows[id].(state := Expired)]
  {
  }

  lemma SweptOwed(owed: map<string, Owed>, ids: set<string>, id: string)
    ensures owed + (map k | k in ids + {id} :: Hook(false))
         == (owed + (map k | k in ids :: Hook(false)))[id := Hook(false)]
  {
  }

  lemma SweptPending(pending: map<string, Entry>, ids: set<string>, id: string)
    ensures pending - (ids + {id}) == (pending - ids) - {id}
  {
  }

  /** Sweeping one more. */
  lemma SweepOne(st: State, ids: set<string>, id: string)
    requires id in st.pending && id in st.rows && id !in ids
    ensures var a := Swept(st, ids);
            && id in a.pending && a.pending[id] == st.pending[id] && id in a.rows && a.rows[id] == st.rows[id]
            && Swept(st, ids + {id}) == Expire(a, id)
  {
    SweptRows(st.rows, ids, id);
    SweptOwed(st.owed, ids, id);
    SweptPending(st.pending, ids, id);
  }

  lemma SweptUntouched(st: State, ids: set<string>, id: string)
    requires id in st.pending && id !in ids
    ensures var a := Swept(st, ids);
            && id in a.pending && a.pending[id] == st.pending[id]
            && (id in a.rows <==> id in st.rows) && (id in st.rows ==> a.rows[id] == st.rows[id])
  {
  }

  lemma SweptNone(st: State, none: set<string>)
    requires none == {}
    ensures Swept(st, none) == st
  {
    var a := Swept(st, none);
    assert a.pending == st.pending && a.owed == st.owed && a.rows == st.rows;
  }

  lemma SettlePerformsNothing(st: State, id: string)
    ensures Settle(st, id, RejectThenHook).performed == st.performed
  {
  }

  lemma WrongPerformsNothing(st: State, id: string, dbOk: bool, now: int)
    requires id in st.pending && id in st.rows
    ensures WrongCode(st, id, dbOk, now).performed == st.performed
  {
    hide Recent;
  }
}
