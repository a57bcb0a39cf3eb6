/**
 The state the fetch server keeps under its mutex. Each method is one critical
 section and is proved to be the step that the slot, replay and budget modules
 reason about. Times are in milliseconds.
 */
module FetchServer {
  import opened Base
  import opened FetchSlots
  import ByteWindow
  import FetchBudget
  import FetchReplay
  import FixedWindow

  const OPS_PER_SECOND := 20
  const SECOND := 1000
  const MINUTE := 60_000

  const QUEUE := 256

  type Store = FetchReplay.Store

  /** The type and the id of a decoded message. */
  datatype Request = Request(kind: string, req: string)

  datatype Waiter = Waiter(peer: string, req: string, counted: bool)

  /** "f-" and 32 lowercase hex digits. */
  predicate RequestId(s: string) {
    && |s| == 34 && s[0] == 'f' && s[1] == '-'
    && forall i | 2 <= i < 34 :: '0' <= s[i] <= '9' || 'a' <= s[i] <= 'f'
  }

  predicate IsRequest(m: Request) { m.kind == "fetch.req" && RequestId(m.req) }

  function SeenBy(seen: map<string, Store>, peer: string): Store { if peer in seen then seen[peer] else map[] }

  function Of<T>(m: map<string, T>, k: string): Option<T> { if k in m then Some(m[k]) else None }

  function Seconds(now: int): int { now / 1000 }

  /** The clean-up of replay stores: expired entries go, and so does a peer with none left. */
  ghost predicate Forgotten(seen: map<string, Store>, after: map<string, Store>, now: int) {
    forall p :: SeenBy(after, p) == FetchReplay.Prune(SeenBy(seen, p), now)
  }

  /** The loop that drops the expired entries of one store. */
  method PruneStore(reqs: Store, now: int) returns (kept: Store)
    ensures kept == FetchReplay.Prune(reqs, now)
  {
    kept := reqs;
    var todo := reqs.Keys;
    while todo != {}
      invariant todo <= reqs.Keys
      invariant kept == map k | k in reqs && (k in todo || now - reqs[k] <= FetchReplay.REMEMBER) :: reqs[k]
    {
      var k :| k in todo;
      if now - reqs[k] > FetchReplay.REMEMBER { kept := kept - {k}; }
      todo := todo - {k};
    }
  }

  class Server {
    var closed: bool
    var queue: seq<Waiter>
    var inflightPeer: map<string, int>
    var inflightTotal: int
    var rejects: map<string, int>
    var inflightGrant: map<string, int>
    var rate: map<string, (int, int)>
    var served: map<string, ByteWindow.Ring>
    var seen: map<string, Store>
    const budget: int

    function View(): Slots
      reads this
    {
      Slots(inflightPeer, inflightTotal, rejects, inflightGrant)
    }

    /** The rings and their arrays. */
    ghost function Repr(): set<object>
      reads this`served
    {
      (set g | g in served :: served[g] as object) + (set g | g in served :: served[g].b as object)
    }

    /** Each grant has a ring of its own. */
    ghost predicate Valid()
      reads this`served, Repr()
    {
      && (forall g | g in served :: served[g].Valid())
      && forall g, h | g in served && h in served && g != h :: served[g] != served[h] && served[g].b != served[h].b
    }

    /** The history a grant's ring stands for. */
    ghost function Window(g: string): Option<ByteWindow.Window>
      reads this`served, Repr()
    {
      if g in served then Some(served[g].View()) else None
    }

    constructor (bytesPer24h: int)
      ensures View() == EMPTY && !closed && queue == [] && rate == map[] && served == map[] && seen == map[] && Valid()
      ensures budget == (if bytesPer24h <= 0 then 268435456 else bytesPer24h) > 0
    {
      closed, inflightPeer, inflightTotal, rejects, inflightGrant := false, map[], 0, map[], map[];
      queue := [];
      rate, served, seen := map[], map[], map[];
      budget := if bytesPer24h <= 0 then 268435456 else bytesPer24h;
    }

    /** Handle up to its reservation: what is not a request with an id is dropped. */
    method Handle(peer: string, msg: Option<Request>) returns (r: Reserved)
      modifies this`inflightPeer, this`inflightTotal, this`rejects
      ensures var taken := !closed && msg.Some? && IsRequest(msg.value);
              && r == (if taken then Outcome(old(View()), peer) else Dropped)
              && View() == if taken then Reserve(old(View()), peer) else old(View())
    {
      if msg.None? || msg.value.kind != "fetch.req" || !RequestId(msg.value.req) { return Dropped; }
      if closed { return Dropped; }
      if Count(inflightPeer, peer) >= PER_PEER || inflightTotal >= IN_ALL {
        if Count(rejects, peer) >= REFUSALS_PER_PEER { return Dropped; }
        rejects := rejects[peer := Count(rejects, peer) + 1];
        r := Refusing;
      } else {
        inflightPeer := inflightPeer[peer := Count(inflightPeer, peer) + 1];
        inflightTotal := inflightTotal + 1;
        r := Counted;
      }
    }

    /** The rest of Handle: a full queue gives the reservation back at once. */
    method Enqueue(peer: string, req: string, counted: bool) returns (ok: bool)
      requires |queue| <= QUEUE
      modifies this`queue, this`inflightPeer, this`inflightTotal, this`rejects
      ensures |queue| <= QUEUE && (ok <==> |old(queue)| < 256)
      ensures queue == old(queue) + if ok then [Waiter(peer, req, counted)] else []
      ensures View() == if ok then old(View()) else Release(old(View()), peer, counted)
    {
      if |queue| < QUEUE {
        queue := queue + [Waiter(peer, req, counted)];
        return true;
      }
      Free(peer, counted);
      ok := false;
    }

    /** release. */
    method Free(peer: string, counted: bool)
      modifies this`inflightPeer, this`inflightTotal, this`rejects
      ensures View() == Release(old(View()), peer, counted)
    {
      if counted {
        var n := Count(inflightPeer, peer) - 1;
        inflightPeer := if n <= 0 then inflightPeer - {peer} else inflightPeer[peer := n];
        inflightTotal := inflightTotal - 1;
      } else {
        var n := Count(rejects, peer) - 1;
        rejects := if n <= 0 then rejects - {peer} else rejects[peer := n];
      }
    }

    /** markSeen: a full store is pruned before it refuses. */
    method MarkSeen(peer: string, req: string, now: int) returns (ok: bool)
      modifies this`seen
      ensures FetchReplay.Marked(SeenBy(seen, peer), ok) == FetchReplay.Mark(SeenBy(old(seen), peer), req, now)
      ensures forall p | p != peer :: SeenBy(seen, p) == SeenBy(old(seen), p)
    {
      var reqs := SeenBy(seen, peer);
      seen := seen[peer := reqs];
      if req in reqs && now - reqs[req] <= FetchReplay.REMEMBER { return false; }
      if |reqs| >= FetchReplay.CAPACITY {
        reqs := PruneStore(reqs, now);
        seen := seen[peer := reqs];
        if |reqs| >= FetchReplay.CAPACITY { return false; }
      }
      seen := seen[peer := reqs[req := now]];
      ok := true;
    }

    /** The byte check of admit: it rolls the grant's ring and adds up its buckets. */
    method OverBudget(grant: string, now: int) returns (over: bool)
      requires Valid() && budget > 0
      modifies Repr()
      ensures Valid() && served == old(served)
      ensures Window(grant) == FetchBudget.Rolled(old(Window(grant)), Seconds(now))
      ensures over <==> FetchBudget.Spent(Window(grant)) >= budget
      ensures forall g | g != grant :: Window(g) == old(Window(g))
    {
      if grant !in served { return false; }
      var n := served[grant].Served(Seconds(now));
      over := n >= budget;
    }

    /**
     admit: two operations in flight, 20 a second, and the byte budget. The rate window is
     opened and the ring rolled even when the operation is then refused.
     */
    method Admit(grant: string, now: int) returns (ok: bool)
      requires Valid() && budget > 0
      modifies this`inflightGrant, this`rate, Repr()
      ensures Valid() && served == old(served)
      ensures var free := Count(old(inflightGrant), grant) < 2;
              var w := FixedWindow.Current(Of(old(rate), grant), now, 1000);
              var rolled := FetchBudget.Rolled(old(Window(grant)), Seconds(now));
              && (ok <==> free && w.1 < 20 && FetchBudget.Spent(rolled) < budget)
              && inflightGrant == (if ok then Inc(old(inflightGrant), grant) else old(inflightGrant))
              && rate == (if free then old(rate)[grant := if ok then (w.0, w.1 + 1) else w] else old(rate))
              && Window(grant) == if free && w.1 < 20 then rolled else old(Window(grant))
      ensures forall g | g != grant :: Window(g) == old(Window(g))
    {
      hide FetchBudget.Rolled, FetchBudget.Spent, Valid, Window;
      if Count(inflightGrant, grant) >= PER_GRANT { return false; }
      var w := FixedWindow.Current(Of(rate, grant), now, SECOND);
      rate := rate[grant := w];
      if w.1 >= OPS_PER_SECOND { return false; }
      var over := OverBudget(grant, now);
      if over { return false; }
      rate := rate[grant := (w.0, w.1 + 1)];
      inflightGrant := Inc(inflightGrant, grant);
      ok := true;
    }

    method FreeGrant(grant: string)
      modifies this`inflightGrant
      ensures inflightGrant == Dec(old(inflightGrant), grant)
    {
      var n := Count(inflightGrant, grant) - 1;
      inflightGrant := if n <= 0 then inflightGrant - {grant} else inflightGrant[grant := n];
    }

    /** addServed: the bytes go into the grant's ring, a new one if it has none. */
    method AddServed(grant: string, n: int, now: int)
      requires Valid()
      modifies this`served, Repr()
      ensures Valid() && fresh(Repr() - old(Repr()))
      ensures Window(grant) == Some(FetchBudget.Added(old(Window(grant)), Seconds(now), n))
      ensures forall g | g != grant :: Window(g) == old(Window(g))
    {
      hide ByteWindow.UnixHour, Valid;
      if grant !in served { Open(grant, now); }
      Count24h(grant, n, now);
    }

    method Count24h(grant: string, n: int, now: int)
      requires Valid() && grant in served
      modifies served[grant], served[grant].b
      ensures Valid() && served == old(served)
      ensures Window(grant)
           == Some(ByteWindow.AddTo(old(Window(grant)).value, ByteWindow.UnixHour(Seconds(now)), n))
      ensures forall g | g != grant :: Window(g) == old(Window(g))
    {
      hide ByteWindow.UnixHour;
      served[grant].Add(n, Seconds(now));
    }

    method Open(grant: string, now: int)
      requires Valid() && grant !in served
      modifies this`served
      ensures Valid() && grant in served && served == old(served)[grant := served[grant]]
      ensures fresh(served[grant]) && fresh(served[grant].b)
      ensures Window(grant) == Some(ByteWindow.Window(ByteWindow.UnixHour(Seconds(now)), []))
      ensures forall g | g != grant :: Window(g) == old(Window(g))
    {
      var ring := new ByteWindow.Ring(ByteWindow.UnixHour(Seconds(now)));
      served := served[grant := ring];
    }

    /** The loop of Flush over the replay stores. */
    method FlushSeen(now: int)
      modifies this`seen
      ensures Forgotten(old(seen), seen, now)
    {
      var todo := seen.Keys;
      ghost var was := seen;
      while todo != {}
        invariant todo <= was.Keys
        invariant forall p :: SeenBy(seen, p) == if p in todo then was[p] else FetchReplay.Prune(SeenBy(was, p), now)
      {
        var p :| p in todo;
        assert SeenBy(seen, p) == was[p];
        var kept := PruneStore(SeenBy(seen, p), now);
        hide FetchReplay.Prune;
        seen := if kept == map[] then seen - {p} else seen[p := kept];
        todo := todo - {p};
      }
    }

    /** The loop of Flush over the rings: one with nothing left to count is dropped. */
    method FlushServed(now: int)
      requires Valid()
      modifies this`served
      ensures Valid() && Repr() <= old(Repr())
      ensures forall g :: Window(g) == FetchBudget.Pruned(old(Window(g)), Seconds(now))
    {
      hide ByteWindow.UnixHour;
      var hour := ByteWindow.UnixHour(Seconds(now));
      served := map g | g in served && hour - served[g].hour < ByteWindow.BUCKETS :: served[g];
    }

    /** Flush: what can no longer matter is dropped, rate windows that are old and of no operation in flight too. */
    method Flush(now: int)
      requires Valid()
      modifies this`seen, this`rate, this`served
      ensures Valid() && Repr() <= old(Repr())
      ensures Forgotten(old(seen), seen, now)
      ensures rate == map g | g in old(rate) && (now - old(rate)[g].0 <= 60_000 || Count(inflightGrant, g) != 0)
                          :: old(rate)[g]
      ensures forall g :: Window(g) == FetchBudget.Pruned(old(Window(g)), Seconds(now))
    {
      hide Window, Forgotten, FetchBudget.Pruned;
      FlushSeen(now);
      rate := map g | g in rate && (now - rate[g].0 <= MINUTE || Count(inflightGrant, g) != 0) :: rate[g];
      FlushServed(now);
    }
  }
}
