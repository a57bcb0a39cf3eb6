/**
 The fetches a holder has in progress. Responses find their fetch through the
 request id of its current attempt, so the index must name exactly the pending
 fetches; then looking a response up is the same as offering it to every fetch.
 */
module FetchClient {
  import opened Base
  import opened Reassembly

  const KEEP := 60_000

  type Ops = map<string, Op>

  /** reqs names the current attempt of each pending fetch and nothing else. */
  predicate Indexed(ops: Ops, reqs: map<string, string>) {
    && (forall id | id in ops && ops[id].status.Pending? :: ops[id].req in reqs && reqs[ops[id].req] == id)
    && (forall r | r in reqs :: reqs[r] in ops && ops[reqs[r]].status.Pending? && ops[reqs[r]].req == r)
    && (forall id | id in ops && !ops[id].status.Pending? :: ops[id].req !in reqs)
  }

  /** No fetch uses this request id. */
  predicate Unused(ops: Ops, reqs: map<string, string>, req: string) {
    req !in reqs && forall id | id in ops :: ops[id].req != req
  }

  function At(ops: Ops, id: string): Option<Op> { if id in ops then Some(ops[id]) else None }

  /** What a tick makes of a fetch: gone a minute after it finished, otherwise timed out, retried or left. */
  function Ticked(op: Op, now: int, next: string): Option<Op> {
    if !op.status.Pending? && now - op.finished >= 60_000 then None else Some(Tick(op, now, next))
  }

  /** Request ids for the retries of a tick: all new, all different. */
  predicate Fresh(ops: Ops, reqs: map<string, string>, next: map<string, string>) {
    && ops.Keys <= next.Keys
    && (forall id | id in next :: Unused(ops, reqs, next[id]))
    && forall i, j | i in next && j in next && i != j :: next[i] != next[j]
  }

  // ---- How many are in progress ----

  const MAX_PER_PEER := 2
  const MAX_LIVE := 64
  const MAX_KEPT := 64

  function Live(ops: Ops): set<string> { set id | id in ops && ops[id].status.Pending? }
  function LiveWith(ops: Ops, peer: string): set<string> { set id | id in ops && Pends(ops[id], peer) }
  function Kept(ops: Ops): set<string> { set id | id in ops && !ops[id].status.Pending? }

  predicate Pends(op: Op, peer: string) { op.status.Pending? && op.peer == peer }

  /** At most 64 fetches are pending, two with one peer, and with the finished ones 127 are held. */
  ghost predicate Limited(ops: Ops) {
    && |Live(ops)| <= MAX_LIVE && |ops| < MAX_LIVE + MAX_KEPT
    && forall p :: |LiveWith(ops, p)| <= MAX_PER_PEER
  }

  /** Fetches that only end or go away keep the limits. */
  lemma StillLimited(ops: Ops, after: Ops)
    requires Limited(ops) && after.Keys <= ops.Keys
    requires forall id | id in after && after[id].status.Pending? :: Pends(ops[id], after[id].peer)
    ensures Limited(after)
  {
    Fewer(Live(after), Live(ops));
    Fewer(after.Keys, ops.Keys);
    forall p ensures |LiveWith(after, p)| <= MAX_PER_PEER { Fewer(LiveWith(after, p), LiveWith(ops, p)); }
  }

  lemma PendingOrKept(ops: Ops)
    ensures |ops| == |Live(ops)| + |Kept(ops)|
  {
    assert ops.Keys == Live(ops) + Kept(ops);
  }

  lemma WithOneMore(s: set<string>, t: set<string>, id: string)
    requires t <= s + {id}
    ensures |t| <= |s| + 1
  {
    Fewer(t, s + {id});
  }

  lemma AdmittedLimited(ops: Ops, id: string, op: Op)
    requires Limited(ops) && |Live(ops)| < MAX_LIVE && |LiveWith(ops, op.peer)| < MAX_PER_PEER
    requires |ops| + 1 < MAX_LIVE + MAX_KEPT && id !in ops
    ensures Limited(ops[id := op])
  {
    var after := ops[id := op];
    WithOneMore(Live(ops), Live(after), id);
    WithOneMore(ops.Keys, after.Keys, id);
    forall p ensures |LiveWith(after, p)| <= MAX_PER_PEER {
      if p == op.peer { WithOneMore(LiveWith(ops, p), LiveWith(after, p), id); }
      else { Fewer(LiveWith(after, p), LiveWith(ops, p)); }
    }
  }

  /** The first to finish of some fetches. */
  predicate IsOldest(ops: Ops, among: set<string>, oldest: Option<string>) {
    match oldest
    case None => among == {}
    case Some(o) =>
      && o in among && o in ops
      && forall id | id in among :: id in ops && ops[o].finished <= ops[id].finished
  }

  function Older(ops: Ops, oldest: Option<string>, id: string): Option<string>
    requires id in ops && (oldest.Some? ==> oldest.value in ops)
  {
    if oldest.None? || ops[id].finished < ops[oldest.value].finished then Some(id) else oldest
  }

  lemma OldestNext(ops: Ops, among: set<string>, oldest: Option<string>, id: string)
    requires id in ops && IsOldest(ops, among, oldest)
    ensures oldest.Some? ==> oldest.value in ops
    ensures IsOldest(ops, among + {id}, Older(ops, oldest, id))
  {
  }

  /** Looking at one more of the fetches still to be looked at. */
  lemma LookAt(s: set<string>, todo: set<string>, id: string)
    requires id in todo
    ensures |s - (todo - {id})| == |s - todo| + (if id in s then 1 else 0)
  {
    LookAtSet(s, todo, id);
  }

  lemma LookAtSet(s: set<string>, todo: set<string>, id: string)
    requires id in todo
    ensures s - (todo - {id}) == (s - todo) + (if id in s then {id} else {})
  {
  }

  lemma Members(ops: Ops, peer: string, id: string)
    requires id in ops
    ensures id in Live(ops) <==> ops[id].status.Pending?
    ensures id in LiveWith(ops, peer) <==> Pends(ops[id], peer)
    ensures id in Kept(ops) <==> !ops[id].status.Pending?
  {
  }

  /** The counts over the fetches that are not to be looked at any more. */
  datatype Counts = Counts(inflight: nat, pending: nat, kept: nat, oldest: Option<string>)

  ghost predicate Surveyed(ops: Ops, peer: string, todo: set<string>, c: Counts) {
    && c.inflight == |LiveWith(ops, peer) - todo| && c.pending == |Live(ops) - todo|
    && c.kept == |Kept(ops) - todo| && IsOldest(ops, Kept(ops) - todo, c.oldest)
  }

  lemma SurveyStart(ops: Ops, peer: string)
    ensures Surveyed(ops, peer, ops.Keys, Counts(0, 0, 0, None))
  {
    assert LiveWith(ops, peer) - ops.Keys == {} && Live(ops) - ops.Keys == {} && Kept(ops) - ops.Keys == {};
  }

  lemma SurveyEnd(ops: Ops, peer: string, c: Counts)
    requires Surveyed(ops, peer, {}, c)
    ensures c.inflight == |LiveWith(ops, peer)| && c.pending == |Live(ops)| && c.kept == |Kept(ops)|
    ensures IsOldest(ops, Kept(ops), c.oldest)
  {
    assert LiveWith(ops, peer) - {} == LiveWith(ops, peer);
    assert Live(ops) - {} == Live(ops) && Kept(ops) - {} == Kept(ops);
  }

  lemma SurveyNext(ops: Ops, peer: string, todo: set<string>, c: Counts, id: string)
    requires Surveyed(ops, peer, todo, c) && id in todo && id in ops
    ensures c.oldest.Some? ==> c.oldest.value in ops
    ensures Surveyed(ops, peer, todo - {id},
              if ops[id].status.Pending? then
                c.(pending := c.pending + 1, inflight := if ops[id].peer == peer then c.inflight + 1 else c.inflight)
              else c.(kept := c.kept + 1, oldest := Older(ops, c.oldest, id)))
  {
    hide LiveWith, Live, Kept, IsOldest, Older;
    Members(ops, peer, id);
    KeptNext(ops, todo, c.oldest, id);
    LookAt(LiveWith(ops, peer), todo, id);
    LookAt(Live(ops), todo, id);
    LookAt(Kept(ops), todo, id);
  }

  lemma KeptNext(ops: Ops, todo: set<string>, oldest: Option<string>, id: string)
    requires id in todo && id in ops && IsOldest(ops, Kept(ops) - todo, oldest)
    ensures oldest.Some? ==> oldest.value in ops
    ensures IsOldest(ops, Kept(ops) - (todo - {id}),
              if ops[id].status.Pending? then oldest else Older(ops, oldest, id))
  {
    Members(ops, "", id);
    OldestNext(ops, Kept(ops) - todo, oldest, id);
    LookAtSet(Kept(ops), todo, id);
    hide Kept, Older;
    assert (Kept(ops) - todo) + {} == Kept(ops) - todo;
  }

  /** The loop of admit: those pending with peer, all those pending, those kept and the oldest of these. */
  method Survey(ops: Ops, peer: string) returns (c: Counts)
    ensures c.inflight == |LiveWith(ops, peer)| && c.pending == |Live(ops)| && c.kept == |Kept(ops)|
    ensures IsOldest(ops, Kept(ops), c.oldest)
  {
    hide LiveWith, Live, Kept, IsOldest, Surveyed;
    var todo := ops.Keys;
    c := Counts(0, 0, 0, None);
    SurveyStart(ops, peer);
    while todo != {}
      invariant todo <= ops.Keys && Surveyed(ops, peer, todo, c)
    {
      var id :| id in todo;
      SurveyNext(ops, peer, todo, c, id);
      if !ops[id].status.Pending? {
        c := c.(kept := c.kept + 1, oldest := Older(ops, c.oldest, id));
      } else {
        c := c.(pending := c.pending + 1);
        if ops[id].peer == peer { c := c.(inflight := c.inflight + 1); }
      }
      todo := todo - {id};
    }
    SurveyEnd(ops, peer, c);
  }

  class Client {
    var ops: map<string, Op>
    var reqs: map<string, string>

    ghost predicate Valid()
      reads this
    {
      Indexed(ops, reqs) && Limited(ops)
    }

    constructor ()
      ensures Valid() && ops == map[] && reqs == map[]
    {
      ops, reqs := map[], map[];
    }

    /** admit: refused when too much is in progress; when much is kept, the first that finished makes room. */
    method Admit(id: string, op: Op) returns (ok: bool, ghost gone: set<string>)
      requires Valid() && id !in ops && Unused(ops, reqs, op.req) && op.status.Pending?
      modifies this
      ensures Valid() && (ok <==> |LiveWith(old(ops), op.peer)| < 2 && |Live(old(ops))| < 64)
      ensures !ok ==> ops == old(ops) && reqs == old(reqs)
      ensures ok ==> ops == (old(ops) - gone)[id := op] && reqs == old(reqs)[op.req := id]
      ensures ok ==> if |Kept(old(ops))| < 64 then gone == {}
                     else exists o :: gone == {o} && IsOldest(old(ops), Kept(old(ops)), Some(o))
    {
      gone := {};
      var c := Survey(ops, op.peer);
      if c.inflight >= MAX_PER_PEER || c.pending >= MAX_LIVE { return false, gone; }
      var fewer := ops;
      if c.kept >= MAX_KEPT {
        gone := {c.oldest.value};
        fewer := ops - {c.oldest.value};
      }
      MakesRoom(ops, reqs, c.oldest, fewer, id, op);
      hide LiveWith, Live, Kept, Limited, Indexed, IsOldest;
      assert fewer == ops - gone;
      ops, reqs := fewer[id := op], reqs[op.req := id];
      ok := true;
    }

    /**
     forget: the request of this fetch could not be sent. By then the fetch may have ended, or
     have gone from the table together with its request id.
     */
    method Forget(id: string, req: string)
      requires Valid() && if id in ops then ops[id].req == req else req !in reqs
      modifies this
      ensures Valid() && ops == old(ops) - {id} && reqs == old(reqs) - {req}
      ensures id in old(ops) && old(ops)[id].status.Pending? <==> reqs != old(reqs)
      ensures id !in old(ops) ==> ops == old(ops)
    {
      if id in ops {
        StillLimited(ops, ops - {id});
        IndexedGone(ops, reqs, id);
        assert ops[id].status.Pending? <==> req in reqs;
      }
      assert req !in reqs ==> reqs - {req} == reqs;
      assert id !in ops ==> ops - {id} == ops;
      hide Limited, Indexed;
      ops := ops - {id};
      reqs := reqs - {req};
    }

    /** A pending fetch takes its next state: it moves in the index with its request id, and leaves it when finished. */
    method Put(id: string, op: Op)
      requires Valid() && id in ops && ops[id].status.Pending?
      requires op.req == ops[id].req || Unused(ops, reqs, op.req)
      requires op.peer == ops[id].peer
      modifies this
      ensures Valid() && ops == old(ops)[id := op]
      ensures reqs == if op.status.Pending? then (old(reqs) - {old(ops)[id].req})[op.req := id]
                      else old(reqs) - {old(ops)[id].req}
    {
      StillLimited(ops, ops[id := op]);
      IndexedPut(ops, reqs, id, op);
      hide Limited, Indexed;
      reqs := reqs - {ops[id].req};
      ops := ops[id := op];
      if op.status.Pending? { reqs := reqs[op.req := id]; }
    }

    /** onResp for a fragment: it reaches every fetch with this peer that would take it. */
    method OnResp(peer: string, m: Frag, now: int)
      requires Valid()
      modifies this
      ensures Valid() && ops.Keys == old(ops).Keys
      ensures forall id | id in ops ::
                ops[id] == if old(ops)[id].peer == peer then Receive(old(ops)[id], m, now) else old(ops)[id]
    {
      if m.req !in reqs { return; }
      var id := reqs[m.req];
      var op := ops[id];
      if op.peer != peer { return; }
      var next := Receive(op, m, now);
      ReceiveKeeps(op, m, now);
      hide Receive;
      forall i | i in ops && i != id ensures Receive(ops[i], m, now) == ops[i] { NotMine(ops[i], m, now); }
      Put(id, next);
    }

    /** onResp for an error. */
    method OnRefusal(peer: string, req: string, code: string, now: int)
      requires Valid()
      modifies this
      ensures Valid() && ops.Keys == old(ops).Keys
      ensures forall id | id in ops ::
                ops[id] == if old(ops)[id].peer == peer then Refused(old(ops)[id], req, code, now) else old(ops)[id]
    {
      if req !in reqs { return; }
      var id := reqs[req];
      if ops[id].peer != peer { return; }
      Put(id, Refused(ops[id], req, code, now));
    }

    method TickOne(id: string, now: int, next: string)
      requires Valid() && id in ops && Unused(ops, reqs, next)
      modifies this
      ensures Valid() && At(ops, id) == Ticked(old(ops)[id], now, next)
      ensures forall i | i != id :: At(ops, i) == At(old(ops), i)
      ensures forall r | Unused(old(ops), old(reqs), r) && r != next :: Unused(ops, reqs, r)
    {
      var op := ops[id];
      if op.status.Pending? {
        Put(id, Tick(op, now, next));
      } else if now - op.finished >= KEEP {
        StillLimited(ops, ops - {id});
        IndexedGone(ops, reqs, id);
        hide Limited, Indexed;
        ops := ops - {id};
      }
    }

    /** tick over all fetches, in any order. */
    method TickAll(now: int, next: map<string, string>)
      requires Valid() && Fresh(ops, reqs, next)
      modifies this
      ensures Valid() && ops.Keys <= old(ops).Keys
      ensures forall id | id in old(ops) :: At(ops, id) == Ticked(old(ops)[id], now, next[id])
    {
      var todo := ops.Keys;
      ghost var was := ops;
      while todo != {}
        invariant Valid() && todo <= was.Keys && Partly(was, ops, todo, now, next)
        invariant forall id | id in todo :: Unused(ops, reqs, next[id])
      {
        hide Indexed, Limited, Partly, Ticked, Unused;
        var id :| id in todo;
        ghost var before := ops;
        PartlyAt(was, ops, todo, now, next, id);
        TickOne(id, now, next[id]);
        PartlyNext(was, before, ops, todo, now, next, id);
        todo := todo - {id};
      }
    }
  }

  /** Some of the fetches have been ticked, those in todo not yet. */
  ghost predicate Partly(was: Ops, ops: Ops, todo: set<string>, now: int, next: map<string, string>)
    requires was.Keys <= next.Keys
  {
    && ops.Keys <= was.Keys
    && forall id | id in was ::
         At(ops, id) == if id in todo then Some(was[id]) else Ticked(was[id], now, next[id])
  }

  lemma PartlyAt(was: Ops, ops: Ops, todo: set<string>, now: int, next: map<string, string>, id: string)
    requires was.Keys <= next.Keys && Partly(was, ops, todo, now, next) && id in todo && todo <= was.Keys
    ensures id in ops && ops[id] == was[id]
  {
    assert At(ops, id) == Some(was[id]);
  }

  lemma PartlyNext(
    was: Ops, before: Ops, after: Ops, todo: set<string>, now: int, next: map<string, string>, id: string)
    requires was.Keys <= next.Keys && Partly(was, before, todo, now, next) && id in todo && todo <= was.Keys
    requires At(after, id) == Ticked(was[id], now, next[id]) && forall i | i != id :: At(after, i) == At(before, i)
    ensures Partly(was, after, todo - {id}, now, next)
  {
    hide Ticked;
    forall i | i in after ensures i in was { if i != id { assert At(after, i) == At(before, i); } }
    forall i | i in was
      ensures At(after, i) == if i in todo - {id} then Some(was[i]) else Ticked(was[i], now, next[i])
    {
      if i != id { assert At(after, i) == At(before, i); }
    }
  }

  lemma Dropped(ops: Ops, id: string, peer: string)
    requires id in Kept(ops) && Limited(ops)
    ensures Limited(ops - {id}) && |ops - {id}| == |ops| - 1
    ensures Live(ops - {id}) == Live(ops) && LiveWith(ops - {id}, peer) == LiveWith(ops, peer)
  {
    StillLimited(ops, ops - {id});
    assert (ops - {id}).Keys == ops.Keys - {id};
  }

  lemma IndexedGone(ops: Ops, reqs: map<string, string>, id: string)
    requires Indexed(ops, reqs) && id in ops
    ensures Indexed(ops - {id}, if ops[id].status.Pending? then reqs - {ops[id].req} else reqs)
  {
  }

  lemma IndexedPut(ops: Ops, reqs: map<string, string>, id: string, op: Op)
    requires Indexed(ops, reqs) && id in ops && ops[id].status.Pending?
    requires op.req == ops[id].req || Unused(ops, reqs, op.req)
    ensures var left := reqs - {ops[id].req};
            Indexed(ops[id := op], if op.status.Pending? then left[op.req := id] else left)
  {
  }

  lemma MakesRoom(ops: Ops, reqs: map<string, string>, oldest: Option<string>, fewer: Ops, id: string, op: Op)
    requires Indexed(ops, reqs) && Limited(ops) && id !in ops && Unused(ops, reqs, op.req) && op.status.Pending?
    requires |LiveWith(ops, op.peer)| < MAX_PER_PEER && |Live(ops)| < MAX_LIVE
    requires IsOldest(ops, Kept(ops), oldest)
    requires fewer == if |Kept(ops)| >= MAX_KEPT && oldest.Some? then ops - {oldest.value} else ops
    ensures |Kept(ops)| >= MAX_KEPT ==> oldest.Some?
    ensures Limited(fewer[id := op]) && Indexed(fewer[id := op], reqs[op.req := id])
  {
    PendingOrKept(ops);
    if |Kept(ops)| >= MAX_KEPT { Dropped(ops, oldest.value, op.peer); }
    IndexedAdmit(ops, reqs, fewer, id, op);
    hide LiveWith, Live, Kept, Limited, Indexed, IsOldest;
    AdmittedLimited(fewer, id, op);
  }

  lemma IndexedAdmit(ops: Ops, reqs: map<string, string>, fewer: Ops, id: string, op: Op)
    requires Indexed(ops, reqs) && id !in ops && Unused(ops, reqs, op.req) && op.status.Pending?
    requires fewer.Keys <= ops.Keys && forall i | i in fewer :: fewer[i] == ops[i]
    requires forall i | i in ops && ops[i].status.Pending? :: i in fewer
    ensures Indexed(fewer[id := op], reqs[op.req := id])
  {
  }

  lemma ReceiveKeeps(op: Op, m: Frag, now: int)
    ensures Receive(op, m, now).req == op.req && Receive(op, m, now).peer == op.peer
  {
  }

  lemma NotMine(op: Op, m: Frag, now: int)
    requires !(op.status.Pending? && op.req == m.req)
    ensures Receive(op, m, now) == op
  {
  }
}
