/**
 The limit of 20 approvals an hour. It counts rows, and a row is written seconds
 after its slot was reserved, so creations that overlap can pass it: by as many
 as there are reservations at once, less one. An approval is created when its
 slot is reserved, and counts once its row is written.
 */
module ApprovalHourly {
  import opened Base
  import opened RollingDay
  import opened Approval

  function Reserved(st: State): set<string> { set id | id in st.pending && st.pending[id].reserved }

  /** The reservations made by time t. */
  function Under(st: State, t: int): set<string> {
    set id | id in st.pending && st.pending[id].reserved && st.pending[id].created <= t
  }

  /** The approvals created in the hour that ends at t, whatever became of their rows. */
  function Born(births: map<string, int>, t: int): set<string> {
    set id | id in births && t - 3_600_000 <= births[id] <= t
  }

  /** The event writes the row of an approval. */
  predicate Stores(st: State, e: Event) {
    e.Store? && e.id in st.pending && st.pending[e.id].reserved && !st.closed && e.dbOk
  }

  /** When each approval that ever got a row was created. */
  function Births(start: int, wrong: seq<int>, es: seq<Event>): map<string, int>
    requires Run(Start(start, wrong), es).Some?
  {
    if es == [] then map[]
    else Next(Births(start, wrong, es[..|es| - 1]), Run(Start(start, wrong), es[..|es| - 1]).value, es[|es| - 1])
  }

  function Next(births: map<string, int>, st: State, e: Event): map<string, int> {
    if Stores(st, e) then births[e.id := st.pending[e.id].created] else births
  }

  /** A run on which at most m creations are under way at any time. */
  predicate AtMost(start: int, wrong: seq<int>, es: seq<Event>, m: nat) {
    var r := Run(Start(start, wrong), es);
    r.Some? && |Reserved(r.value)| <= m && (es != [] ==> AtMost(start, wrong, es[..|es| - 1], m))
  }

  /** The creations of one hour, finished and under way. */
  predicate Within(st: State, births: map<string, int>, t: int, m: nat) {
    |Born(births, t)| + |Under(st, t)| < MAX_PER_HOUR + m
  }

  /** Nothing is created in the future, and no row of the last 30 days is gone. */
  predicate Lasting(st: State, births: map<string, int>) {
    && (forall id | id in births :: births[id] <= st.clock)
    && (forall id | id in st.pending :: st.pending[id].created <= st.clock)
    && forall id | id in births && births[id] >= st.clock - RETENTION ::
         id in st.rows && st.rows[id].created == births[id]
  }

  ghost predicate Bounded(st: State, births: map<string, int>, m: nat) {
    Lasting(st, births) && forall t :: Within(st, births, t, m)
  }

  /** Only Store adds a row and only Prune takes one away; they keep their times. */
  predicate RowsKept(before: map<string, Row>, after: map<string, Row>) {
    after.Keys == before.Keys && forall id | id in after :: after[id].created == before[id].created
  }

  lemma WriteRows(st: State, id: string, state: RowState, ok: bool)
    ensures RowsKept(st.rows, Write(st, id, state, ok).rows)
  {
  }

  lemma FollowedRows(st: State, id: string, dbOk: bool)
    requires id in st.owed
    ensures RowsKept(st.rows, Followed(st, id, dbOk).rows)
  {
    var waiting := id in st.rows && st.rows[id].state.Waiting?;
    WriteRows(st, id, Rejected, dbOk);
    WriteRows(st, id, Expired, dbOk);
    WriteRows(st, id, Expired, waiting);
    assert RowsKept(st.rows, st.rows);
    hide Write, RowsKept;
  }

  lemma EffectRows(st: State, e: Event)
    requires Effect(st, e).Some? && !e.Store? && !e.Confirm? && !e.Prune?
    ensures RowsKept(st.rows, Effect(st, e).value.rows)
  {
    hide Recent, Followed, Created;
    if e.FollowUp? { FollowedRows(st, e.id, e.dbOk); }
  }

  lemma SetRow(rows: map<string, Row>, id: string, row: Row)
    requires id in rows && row.created == rows[id].created
    ensures RowsKept(rows, rows[id := row]) && RowsKept(rows, rows)
  {
  }

  lemma CountedRows(st: State, id: string, now: int)
    requires id in st.pending && id in st.rows
    ensures RowsKept(st.rows, Counted(st.(tested := st.tested + multiset{id}), id, now).rows)
  {
    var row := st.rows[id];
    var state := if row.attempts + 1 >= MAX_ATTEMPTS then Rejected else Waiting;
    hide Recent;
    SetRow(st.rows, id, row.(attempts := row.attempts + 1, state := state));
  }

  lemma WrongRows(st: State, id: string, dbOk: bool, now: int)
    requires id in st.pending && id in st.rows
    ensures RowsKept(st.rows, WrongCode(st, id, dbOk, now).rows)
  {
    var tried := st.(tested := st.tested + multiset{id});
    CountedRows(st, id, now);
    SetRow(st.rows, id, st.rows[id]);
    assert id in Counted(tried, id, now).rows && id in Counted(tried, id, now).pending;
    hide Recent, RowsKept, Judged, DropAll, Settle, Counted, WrongCode;
    JudgedRows(Counted(tried, id, now), id);
    JudgedRows(tried, id);
    WrongCodeCases(st, id, dbOk, now);
  }

  lemma JudgedRows(st: State, id: string)
    requires id in st.pending && id in st.rows
    ensures Judged(st, id).rows == st.rows && DropAll(Judged(st, id)).rows == st.rows
    ensures Settle(st, id, RejectThenHook).rows == st.rows
  {
  }

  lemma ConfirmRows(st: State, id: string, correct: bool, fate: Fate, now: int)
    ensures RowsKept(st.rows, Confirmed(st, id, correct, fate, now).rows)
  {
    if id in st.rows {
      SetRow(st.rows, id, st.rows[id].(state := Expired));
      SetRow(st.rows, id, st.rows[id].(state := Approved));
      if id in st.pending { WrongRows(st, id, fate.Works?, now); }
      hide RowsKept, WrongCode;
    }
  }

  /** Entries keep their times, and only Reserve adds one. */
  predicate Narrower(before: map<string, Entry>, after: map<string, Entry>) {
    && after.Keys <= before.Keys
    && forall id | id in after ::
         after[id].created == before[id].created && (after[id].reserved ==> before[id].reserved)
  }

  lemma FollowedPending(st: State, id: string, dbOk: bool)
    requires id in st.owed
    ensures Followed(st, id, dbOk).pending == st.pending
  {
  }

  lemma EffectNarrows(st: State, e: Event)
    requires Effect(st, e).Some? && !e.Reserve? && !e.Confirm?
    ensures Narrower(st.pending, Effect(st, e).value.pending)
  {
    hide Recent, Followed, Created;
    if e.FollowUp? { FollowedPending(st, e.id, e.dbOk); }
  }

  lemma ConfirmNarrower(st: State, id: string, correct: bool, fate: Fate, now: int)
    ensures Narrower(st.pending, Confirmed(st, id, correct, fate, now).pending)
  {
    hide Recent;
  }

  lemma NarrowerWithin(st: State, after: State, births: map<string, int>, t: int, m: nat)
    requires Narrower(st.pending, after.pending) && Within(st, births, t, m)
    ensures Within(after, births, t, m)
  {
    Fewer(Under(after, t), Under(st, t));
  }

  lemma NarrowerLasting(st: State, after: State, births: map<string, int>)
    requires Narrower(st.pending, after.pending) && RowsKept(st.rows, after.rows)
    requires Lasting(st, births) && st.clock <= after.clock
    ensures Lasting(after, births)
  {
  }

  lemma PruneLasting(st: State, births: map<string, int>, e: Event)
    requires e.Prune? && Lasting(st, births) && Step(st, e).Some?
    ensures Lasting(Step(st, e).value, births)
  {
  }

  lemma StoreLasting(st: State, births: map<string, int>, e: Event)
    requires e.Store? && Lasting(st, births) && Step(st, e).Some?
    ensures Lasting(Step(st, e).value, Next(births, st, e))
  {
  }

  /** A reservation that becomes a row is counted once before and once after. */
  lemma StoreWithin(st: State, births: map<string, int>, e: Event, t: int, m: nat)
    requires Within(st, births, t, m) && e.Store? && Step(st, e).Some?
    ensures Within(Step(st, e).value, Next(births, st, e), t, m)
  {
    var after, next := Step(st, e).value, Next(births, st, e);
    EffectNarrows(st, e);
    assert Stores(st, e) ==> e.id in after.pending && !after.pending[e.id].reserved;
    hide Step;
    if Stores(st, e) && st.pending[e.id].created <= t {
      Moved(st, after, e.id, t);
      Fewer(Born(next, t), Born(births, t) + {e.id});
    } else {
      Fewer(Born(next, t), Born(births, t));
      Fewer(Under(after, t), Under(st, t));
    }
  }

  lemma Moved(st: State, after: State, id: string, t: int)
    requires Narrower(st.pending, after.pending) && id in Under(st, t) && id !in Under(after, t)
    ensures |Under(after, t)| + 1 <= |Under(st, t)|
  {
    Fewer(Under(after, t), Under(st, t) - {id});
  }

  lemma ReserveLasting(st: State, births: map<string, int>, e: Event)
    requires Lasting(st, births) && e.Reserve? && Step(st, e).Some?
    ensures Lasting(Step(st, e).value, births)
  {
    hide Recent, Created;
  }

  /** The limit is read from the rows, and these hold every creation of the last hour. */
  lemma ReserveWithin(st: State, births: map<string, int>, e: Event, t: int, m: nat)
    requires Lasting(st, births) && Within(st, births, t, m)
    requires e.Reserve? && Step(st, e).Some? && |Reserved(Step(st, e).value)| <= m
    ensures Within(Step(st, e).value, births, t, m)
  {
    hide Recent;
    var after := Step(st, e).value;
    if after.pending == st.pending || t < e.now {
      Fewer(Under(after, t), Under(st, t));
    } else {
      Fewer(Born(births, t), Created(st.rows, e.now));
      Fewer(Under(after, t), Reserved(after));
    }
  }

  lemma StepLasting(st: State, births: map<string, int>, e: Event)
    requires Lasting(st, births) && Step(st, e).Some?
    ensures Lasting(Step(st, e).value, Next(births, st, e))
  {
    if e.Store? {
      StoreLasting(st, births, e);
    } else if e.Reserve? {
      ReserveLasting(st, births, e);
    } else if e.Prune? {
      PruneLasting(st, births, e);
    } else {
      if e.Confirm? {
        ConfirmRows(st, e.id, e.correct, e.fate, e.now);
        ConfirmNarrower(st, e.id, e.correct, e.fate, e.now);
      } else {
        EffectRows(st, e);
        EffectNarrows(st, e);
      }
      hide Effect, RowsKept, Narrower, Lasting;
      NarrowerLasting(st, Step(st, e).value, births);
    }
  }

  lemma StepWithin(st: State, births: map<string, int>, e: Event, t: int, m: nat)
    requires Lasting(st, births) && Within(st, births, t, m)
    requires Step(st, e).Some? && |Reserved(Step(st, e).value)| <= m
    ensures Within(Step(st, e).value, Next(births, st, e), t, m)
  {
    if e.Store? {
      StoreWithin(st, births, e, t, m);
    } else if e.Reserve? {
      ReserveWithin(st, births, e, t, m);
    } else {
      if e.Confirm? {
        ConfirmNarrower(st, e.id, e.correct, e.fate, e.now);
      } else {
        EffectNarrows(st, e);
      }
      hide Effect, Within, Narrower;
      NarrowerWithin(st, Step(st, e).value, births, t, m);
    }
  }

  /** With at most m creations under way at once, no hour has more than 19 + m of them. */
  lemma {:induction false} HourHolds(start: int, wrong: seq<int>, es: seq<Event>, m: nat)
    requires AtMost(start, wrong, es, m)
    ensures Bounded(Run(Start(start, wrong), es).value, Births(start, wrong, es), m)
    decreases |es|
  {
    if es != [] {
      var init, e := es[..|es| - 1], es[|es| - 1];
      HourHolds(start, wrong, init, m);
      var before, births := Run(Start(start, wrong), init).value, Births(start, wrong, init);
      hide Step, Next, Within, Lasting, Reserved;
      StepLasting(before, births, e);
      forall t ensures Within(Step(before, e).value, Next(births, before, e), t, m) {
        StepWithin(before, births, e, t, m);
      }
    }
  }

  /** Every run has at most five under way. */
  lemma {:induction false} NeverMoreThanFive(start: int, wrong: seq<int>, es: seq<Event>)
    requires |wrong| <= MAX_WRONG && Run(Start(start, wrong), es).Some?
    ensures AtMost(start, wrong, es, MAX_PENDING)
    decreases |es|
  {
    RunIsSafe(start, wrong, es);
    var st := Run(Start(start, wrong), es).value;
    Fewer(Reserved(st), st.pending.Keys);
    assert |st.pending| == |st.pending.Keys|;
    if es != [] { NeverMoreThanFive(start, wrong, es[..|es| - 1]); }
  }

  // ---- Creations that overlap ----

  /** A time at which none of the wrong codes counts any more. */
  function Later(wrong: seq<int>, start: int): (at: int)
    ensures at >= start && Recent(wrong, at) == []
  {
    if wrong == [] then start
    else
      var init, last := wrong[..|wrong| - 1], wrong[|wrong| - 1];
      var at := if last + DAY <= Later(init, start) then Later(init, start) else last + DAY;
      (RecentShrinks(init, Later(init, start), at); at)
  }

  /** Distinct ids. */
  function Name(k: nat): string { seq(k, _ => 'a') }

  /** Nothing pending, and k approvals created at one moment under the first k names. */
  predicate Serial(st: State, births: map<string, int>, at: int, k: nat) {
    && st.pending == map[] && Recent(st.wrong, at) == [] && !st.closed && st.clock <= at
    && |Created(st.rows, at)| == k && |Born(births, at)| == k
    && (forall id | id in st.used :: |id| < k) && (forall id | id in st.rows :: |id| < k)
    && forall id | id in births :: |id| < k
  }

  lemma ReserveStep(st: State, id: string, at: int)
    requires id !in st.used && Recent(st.wrong, at) == [] && !st.closed && |st.pending| < MAX_PENDING
    requires st.clock <= at && |Created(st.rows, at)| < MAX_PER_HOUR
    ensures var after := st.(pending := st.pending[id := Entry(true, 0, at)], used := st.used + {id}, clock := at);
            && Step(st, Reserve(id, at)) == Some(after)
            && Reserved(after) == Reserved(st) + {id} && |after.pending| <= |st.pending| + 1
  {
    hide Created, Recent;
    OneMorePending(st.pending, id, Entry(true, 0, at));
  }

  lemma OneMorePending(pending: map<string, Entry>, id: string, e: Entry)
    ensures |pending[id := e]| <= |pending| + 1
  {
    assert pending[id := e].Keys == pending.Keys + {id};
    Fewer(pending[id := e].Keys, pending.Keys + {id});
  }

  lemma StoreStep(st: State, id: string)
    requires id in st.pending && st.pending[id] == Entry(true, 0, st.clock) && !st.closed
    ensures var after := st.(pending := st.pending[id := Entry(false, 0, st.clock)],
                             rows := st.rows[id := Row(Waiting, 0, st.clock)], created := st.created + {id});
            && Step(st, Event.Store(id, true, st.clock)) == Some(after) && Reserved(after) == Reserved(st) - {id}
            && Stores(st, Event.Store(id, true, st.clock))
  {
    hide Created;
  }

  lemma CreatedOneMore(rows: map<string, Row>, id: string, now: int)
    requires id !in rows
    ensures |Created(rows[id := Row(Waiting, 0, now)], now)| == |Created(rows, now)| + 1
  {
    assert Created(rows[id := Row(Waiting, 0, now)], now) == Created(rows, now) + {id};
  }

  lemma BornOneMore(births: map<string, int>, id: string, now: int)
    requires id !in births
    ensures |Born(births[id := now], now)| == |Born(births, now)| + 1
  {
    assert Born(births[id := now], now) == Born(births, now) + {id};
  }

  lemma AtMostSnoc(start: int, wrong: seq<int>, es: seq<Event>, e: Event, m: nat)
    requires AtMost(start, wrong, es, m)
    requires var r := Step(Run(Start(start, wrong), es).value, e); r.Some? && |Reserved(r.value)| <= m
    ensures AtMost(start, wrong, es + [e], m)
    ensures Run(Start(start, wrong), es + [e]) == Step(Run(Start(start, wrong), es).value, e)
    ensures Births(start, wrong, es + [e])
         == Next(Births(start, wrong, es), Run(Start(start, wrong), es).value, e)
  {
    hide Step, Reserved, Next;
    assert (es + [e])[..|es|] == es;
  }

  /** A creation that is stored and then rejected: one more row, nothing pending. */
  lemma OneCreation(st: State, births: map<string, int>, at: int, k: nat)
    requires Serial(st, births, at, k) && k < MAX_PER_HOUR
    ensures var e0, e1, e2 := Reserve(Name(k), at), Event.Store(Name(k), true, at), Reject(Name(k), at);
            var a := Step(st, e0);
            && a.Some? && |Reserved(a.value)| <= 1
            && var b := Step(a.value, e1);
               && b.Some? && |Reserved(b.value)| <= 1
               && var c := Step(b.value, e2);
                  && c.Some? && |Reserved(c.value)| <= 1
                  && Serial(c.value, Next(Next(Next(births, st, e0), a.value, e1), b.value, e2), at, k + 1)
  {
    var id := Name(k);
    assert |id| == k && id !in st.used;
    assert Reserved(st) == {} && |st.pending| == 0;
    assert |Created(st.rows, at)| == k;
    var a := st.(pending := st.pending[id := Entry(true, 0, at)], used := st.used + {id}, clock := at);
    var b := a.(pending := a.pending[id := Entry(false, 0, at)], rows := a.rows[id := Row(Waiting, 0, at)],
                created := a.created + {id});
    SerialNext(st, births, at, k, id, Settle(b, id, RejectThenHook));
    hide Name, Created, Reserved, Step, Serial, Recent;
    ReserveStep(st, id, at);
    StoreStep(a, id);
    RejectStep(b, id);
  }

  lemma SerialNext(st: State, births: map<string, int>, at: int, k: nat, id: string, after: State)
    requires Serial(st, births, at, k) && |id| == k && after.pending.Keys <= {}
    requires after.rows == st.rows[id := Row(Waiting, 0, at)]
    requires after.used == st.used + {id} && after.wrong == st.wrong && !after.closed && after.clock == at
    ensures Serial(after, births[id := at], at, k + 1)
  {
    CreatedOneMore(st.rows, id, at);
    BornOneMore(births, id, at);
  }

  lemma RejectStep(st: State, id: string)
    requires id in st.pending && !st.pending[id].reserved
    ensures Step(st, Reject(id, st.clock)) == Some(Settle(st, id, RejectThenHook))
    ensures Reserved(Settle(st, id, RejectThenHook)) == Reserved(st)
  {
    hide Created;
  }

  predicate SerialRun(start: int, wrong: seq<int>, es: seq<Event>, k: nat)
    requires Run(Start(start, wrong), es).Some?
  {
    Serial(Run(Start(start, wrong), es).value, Births(start, wrong, es), Later(wrong, start), k)
  }

  lemma NothingYet(start: int, wrong: seq<int>)
    ensures AtMost(start, wrong, [], 1) && SerialRun(start, wrong, [], 0)
  {
    var at := Later(wrong, start);
    assert Created(map[], at) == {} && Born(map[], at) == {} && Reserved(Start(start, wrong)) == {};
    hide Later, Recent;
  }

  lemma {:induction false} Fill(start: int, wrong: seq<int>, k: nat) returns (es: seq<Event>)
    requires k <= MAX_PER_HOUR
    ensures AtMost(start, wrong, es, 1) && SerialRun(start, wrong, es, k)
    decreases k
  {
    var at := Later(wrong, start);
    if k == 0 {
      es := [];
      NothingYet(start, wrong);
    } else {
      var before := Fill(start, wrong, k - 1);
      hide Step, Run, AtMost, Reserved, Serial, Later, Next, Births, Name;
      OneCreation(Run(Start(start, wrong), before).value, Births(start, wrong, before), at, k - 1);
      var id := Name(k - 1);
      var a, b, c := Reserve(id, at), Event.Store(id, true, at), Reject(id, at);
      AtMostSnoc(start, wrong, before, a, 1);
      AtMostSnoc(start, wrong, before + [a], b, 1);
      AtMostSnoc(start, wrong, before + [a] + [b], c, 1);
      es := before + [a] + [b] + [c];
    }
  }

  lemma TwoReserved(st: State, births: map<string, int>, at: int, x: string, y: string)
    requires Serial(st, births, at, 19) && |x| == 19 && |y| == 20
    ensures var a := Step(st, Reserve(x, at));
            && a.Some? && Reserved(a.value) == {x}
            && var b := Step(a.value, Reserve(y, at));
               && b.Some? && Reserved(b.value) == {x, y} && b.value.clock == at
               && !b.value.closed && x in b.value.pending && y in b.value.pending
               && b.value.pending[x] == b.value.pending[y] == Entry(true, 0, at)
  {
    assert Reserved(st) == {};
    assert x !in st.used && y !in st.used && x != y;
    assert |st.pending| == 0;
    hide Step, Created, Reserved, Serial, Recent;
    ReserveStep(st, x, at);
    var a := Step(st, Reserve(x, at)).value;
    ReserveStep(a, y, at);
    assert {} + {x} == {x} && {x} + {y} == {x, y};
  }

  lemma TwoStored(st: State, births: map<string, int>, at: int, x: string, y: string)
    requires st.clock == at && !st.closed && x != y && Reserved(st) == {x, y} && x !in births && y !in births
    requires x in st.pending && y in st.pending && st.pending[x] == st.pending[y] == Entry(true, 0, at)
    ensures var e0, e1 := Event.Store(x, true, at), Event.Store(y, true, at);
            var c := Step(st, e0);
            && c.Some? && |Reserved(c.value)| <= 2
            && var d := Step(c.value, e1);
               && d.Some? && |Reserved(d.value)| <= 2
               && |Born(Next(Next(births, st, e0), c.value, e1), at)| == |Born(births, at)| + 2
  {
    hide Step, Created, Reserved, Born;
    StoreStep(st, x);
    BornOneMore(births, x, at);
    var c := Step(st, Event.Store(x, true, at)).value;
    StoreStep(c, y);
    BornOneMore(births[x := at], y, at);
    assert {x, y} - {x} == {y} && {y} - {y} == {};
  }

  /** Two creations under way together, after 19 others: 21 of one hour. */
  lemma OverlapPassesLimit(start: int, wrong: seq<int>) returns (es: seq<Event>)
    ensures AtMost(start, wrong, es, 2)
    ensures |Born(Births(start, wrong, es), Later(wrong, start))| == MAX_PER_HOUR + 1
  {
    var at := Later(wrong, start);
    var before := Fill(start, wrong, 19);
    var x, y := Name(19), Name(20);
    assert |x| == 19 && |y| == 20;
    var st, births := Run(Start(start, wrong), before).value, Births(start, wrong, before);
    assert x !in births && y !in births && |Born(births, at)| == 19;
    TwoReserved(st, births, at, x, y);
    var a, b, c := Reserve(x, at), Reserve(y, at), Event.Store(x, true, at);
    TwoStored(Step(Step(st, a).value, b).value, births, at, x, y);
    MoreAllowed(start, wrong, before, 1, 2);
    assert Next(births, st, a) == births && Next(births, Step(st, a).value, b) == births;
    hide Step, Run, AtMost, Reserved, Serial, Created, Born, Name, Later, Births, Next;
    AtMostSnoc(start, wrong, before, a, 2);
    AtMostSnoc(start, wrong, before + [a], b, 2);
    AtMostSnoc(start, wrong, before + [a] + [b], c, 2);
    AtMostSnoc(start, wrong, before + [a] + [b] + [c], Event.Store(y, true, at), 2);
    es := before + [a] + [b] + [c] + [Event.Store(y, true, at)];
  }

  lemma {:induction false} MoreAllowed(start: int, wrong: seq<int>, es: seq<Event>, m: nat, n: nat)
    requires AtMost(start, wrong, es, m) && m <= n
    ensures AtMost(start, wrong, es, n)
    decreases |es|
  {
    if es != [] { MoreAllowed(start, wrong, es[..|es| - 1], m, n); }
  }

  /** On every run with at most m creations under way at once, every hour has at most 20. */
  ghost predicate TwentyAnHour(start: int, wrong: seq<int>, m: nat) {
    forall es, t | AtMost(start, wrong, es, m) :: |Born(Births(start, wrong, es), t)| <= 20
  }

  /** The limit of 20 holds on all runs with at most m creations under way at once, exactly for m <= 1. */
  lemma OverlapIsExact(start: int, wrong: seq<int>, m: nat)
    ensures TwentyAnHour(start, wrong, m) <==> m <= 1
  {
    if m <= 1 {
      forall es, t | AtMost(start, wrong, es, m)
        ensures |Born(Births(start, wrong, es), t)| <= 20
      {
        HourHolds(start, wrong, es, m);
        assert Within(Run(Start(start, wrong), es).value, Births(start, wrong, es), t, m);
      }
    } else {
      var es := OverlapPassesLimit(start, wrong);
      MoreAllowed(start, wrong, es, 2, m);
      assert AtMost(start, wrong, es, m);
    }
  }
}
