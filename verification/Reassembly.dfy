/**
 The holder's side of a read: fragments arrive in any order, more than once or
 never, and a stalled attempt is sent again under a new request id against a
 file that may have changed.
 */
module Reassembly {
  import opened Base
  import opened FetchRead

  const RETRY_AFTER := 10_000
  const MAX_RETRIES := 2

  datatype Status = Pending | Complete(data: bytes, size: int, commit: string) | Failed(code: string)

  /** One read as the client keeps it. No fragments yet is the empty list. */
  datatype Op = Op(peer: string, offset: nat, length: nat, deadline: int, req: string,
                   frags: seq<Option<bytes>>, have: int, size: int, commit: string,
                   lastFrag: int, retries: int, status: Status, finished: int)

  /** A fragment message; data is None when it is not base64 or its text is too long. */
  datatype Frag = Frag(req: string, frag: int, frags: int, size: int, commit: string, data: Option<bytes>)

  predicate ValidCommit(c: string) {
    c == "" || ((|c| == 40 || |c| == 64) && forall i | 0 <= i < |c| :: '0' <= c[i] <= '9' || 'a' <= c[i] <= 'f')
  }

  /** finishLocked. */
  function Finish(op: Op, status: Status, now: int): Op {
    if op.status.Pending? then op.(status := status, finished := now, frags := []) else op
  }

  function Bytes(frags: seq<Option<bytes>>): seq<bytes> {
    seq(|frags|, i requires 0 <= i < |frags| => if frags[i].Some? then frags[i].value else [])
  }

  /** The assembly loop of onFragLocked. */
  method Assemble(frags: seq<Option<bytes>>) returns (all: bytes)
    ensures all == Concat(Bytes(frags))
  {
    all := [];
    for i := 0 to |frags|
      invariant all == Concat(Bytes(frags[..i]))
    {
      assert Bytes(frags[..i + 1])[..i] == Bytes(frags[..i]);
      if frags[i].Some? { all := all + frags[i].value; }
    }
    assert frags[..|frags|] == frags;
  }

  /** A full set of fragments is a result if it has the length the size promises. */
  function Assembled(op: Op, now: int): Op {
    var all := Concat(Bytes(op.frags));
    if |all| != Want(op.size, op.offset, op.length) then Finish(op, Failed("io_error"), now)
    else Finish(op, Complete(all, op.size, op.commit), now)
  }

  /** The first fragment fixes how many there are, the size and the commit. */
  function Opened(op: Op, m: Frag): Op
    requires m.frags >= 1
  {
    if op.frags == [] then op.(frags := seq(m.frags, _ => None), size := m.size, commit := m.commit) else op
  }

  /** onFragLocked, for a fragment that names the current attempt of a pending read. */
  function OnFrag(op: Op, m: Frag, now: int): Op {
    if m.frags < 1 || m.frags > MAX_FRAGMENTS || m.frag < 0 || m.frag >= m.frags
       || m.size < 0 || !ValidCommit(m.commit) then
      Finish(op, Failed("io_error"), now)
    else
      var o := Opened(op, m);
      if m.frags != |o.frags| || m.size != o.size || m.commit != o.commit then Finish(o, Failed("io_error"), now)
      else if m.data.None? || |m.data.value| > FRAGMENT then Finish(o, Failed("io_error"), now)
      else if o.frags[m.frag].Some? then o.(lastFrag := now)
      else
        var o' := o.(lastFrag := now, frags := o.frags[m.frag := m.data], have := o.have + 1);
        if o'.have < |o'.frags| then o' else Assembled(o', now)
  }

  /** onResp drops what is late or not for this read. */
  function Receive(op: Op, m: Frag, now: int): Op {
    if m.req == op.req && op.status.Pending? then OnFrag(op, m, now) else op
  }

  /** One to thirty-two small letters and underscores. */
  predicate IsCode(code: string) {
    1 <= |code| <= 32 && forall i | 0 <= i < |code| :: 'a' <= code[i] <= 'z' || code[i] == '_'
  }

  /** A refusal ends the read it names with its code, or with io_error when that is not a code. */
  function Refused(op: Op, req: string, code: string, now: int): Op {
    if req == op.req then Finish(op, Failed(if IsCode(code) then code else "io_error"), now) else op
  }

  predicate Stalled(op: Op, now: int) {
    0 < op.have < |op.frags| && now - op.lastFrag >= RETRY_AFTER && op.retries < MAX_RETRIES
  }

  /** tick on one pending read: time out, or start over under a new request id. */
  function Tick(op: Op, now: int, next: string): Op {
    if !op.status.Pending? then op
    else if now >= op.deadline then Finish(op, Failed("timeout"), now)
    else if Stalled(op, now) then
      op.(retries := op.retries + 1, req := next, frags := [], have := 0, lastFrag := now)
    else op
  }

  function Started(peer: string, offset: nat, length: nat, deadline: int, req: string): Op {
    Op(peer, offset, length, deadline, req, [], 0, 0, "", 0, 0, Pending, 0)
  }

  // ---- The network and the grantor ----

  /** What the grantor sent for one request: the fragments before any error, out of count. */
  datatype Attempt = Attempt(parts: seq<bytes>, count: int, size: int, commit: string)

  datatype World = World(op: Op, served: map<string, Attempt>, used: set<string>)

  datatype Event =
    | Serve(req: string, attempt: Attempt)
    | Deliver(req: string, i: nat, now: int)
    | Refuse(req: string, code: string, now: int)
    | Clock(now: int, next: string)

  function Message(req: string, a: Attempt, i: nat): Frag
    requires i < |a.parts|
  {
    Frag(req, i, a.count, a.size, a.commit, Some(a.parts[i]))
  }

  /**
   The grantor serves a request id once. Its fragments arrive in any order, any number
   of times, and not delivering one is its loss. Request ids are fresh.
   */
  function Step(w: World, e: Event): Option<World> {
    match e
    case Serve(req, a) =>
      if req in w.served || req !in w.used || |a.parts| > a.count then None
      else Some(w.(served := w.served[req := a]))
    case Deliver(req, i, now) =>
      if req !in w.served || i >= |w.served[req].parts| then None
      else Some(w.(op := Receive(w.op, Message(req, w.served[req], i), now)))
    case Refuse(req, code, now) => Some(w.(op := Refused(w.op, req, code, now)))
    case Clock(now, next) =>
      if next in w.used then None
      else
        var op := Tick(w.op, now, next);
        Some(w.(op := op, used := w.used + {op.req}))
  }

  function Run(w: World, es: seq<Event>): Option<World> {
    if es == [] then Some(w)
    else
      var before := Run(w, es[..|es| - 1]);
      if before.None? then None else Step(before.value, es[|es| - 1])
  }

  // ---- Invariant ----

  function Have(frags: seq<Option<bytes>>): nat {
    if frags == [] then 0 else Have(frags[..|frags| - 1]) + if frags[|frags| - 1].Some? then 1 else 0
  }

  lemma {:induction false} HaveAll(frags: seq<Option<bytes>>)
    ensures Have(frags) <= |frags|
    ensures Have(frags) == |frags| <==> forall i | 0 <= i < |frags| :: frags[i].Some?
  {
    if frags != [] {
      var init := frags[..|frags| - 1];
      HaveAll(init);
      if Have(frags) == |frags| { assert forall i | 0 <= i < |init| :: init[i].Some?; }
      if forall i | 0 <= i < |frags| :: frags[i].Some? {
        assert forall i | 0 <= i < |init| :: init[i] == frags[i];
        assert frags[|frags| - 1].Some?;
      }
    }
  }

  lemma {:induction false} HaveMore(frags: seq<Option<bytes>>, i: nat, d: bytes)
    requires i < |frags| && frags[i].None?
    ensures Have(frags[i := Some(d)]) == Have(frags) + 1
  {
    var init, more := frags[..|frags| - 1], frags[i := Some(d)];
    if i < |frags| - 1 {
      assert more[..|frags| - 1] == init[i := Some(d)];
      HaveMore(init, i, d);
    } else {
      assert more[..|frags| - 1] == init;
    }
  }

  lemma {:induction false} HaveNone(n: nat)
    ensures Have(seq(n, _ => None)) == 0
  {
    if n > 0 {
      assert seq(n, _ => None)[..n - 1] == seq<Option<bytes>>(n - 1, _ => None);
      HaveNone(n - 1);
    }
  }

  /** What was received of an attempt: each fragment is the attempt's own. */
  predicate PartOf(op: Op, a: Attempt) {
    && |op.frags| == a.count && op.size == a.size && op.commit == a.commit
    && forall i | 0 <= i < |op.frags| && op.frags[i].Some? :: i < |a.parts| && op.frags[i].value == a.parts[i]
  }

  /** A completed read is one whole attempt, the one whose id it last used. */
  predicate WholeOf(op: Op, a: Attempt)
    requires op.status.Complete?
  {
    && |a.parts| == a.count && op.status.data == Concat(a.parts)
    && op.status.size == a.size && op.status.commit == a.commit
    && |op.status.data| == Want(a.size, op.offset, op.length)
  }

  predicate Inv(w: World) {
    && w.op.req in w.used && w.served.Keys <= w.used
    && (forall r | r in w.served :: |w.served[r].parts| <= w.served[r].count)
    && |w.used| == 1 + w.op.retries <= 1 + MAX_RETRIES
    && match w.op.status
       case Pending =>
         && w.op.have == Have(w.op.frags)
         && (w.op.frags != [] ==> w.op.req in w.served && PartOf(w.op, w.served[w.op.req]))
       case Complete(_, _, _) => w.op.req in w.served && WholeOf(w.op, w.served[w.op.req])
       case Failed(_) => true
  }

  lemma WholeSet(op: Op, a: Attempt, now: int)
    requires op.status.Pending? && PartOf(op, a) && |a.parts| <= a.count && Have(op.frags) >= |op.frags|
    ensures Assembled(op, now).status.Complete? ==> WholeOf(Assembled(op, now), a)
    ensures Assembled(op, now).req == op.req && Assembled(op, now).retries == op.retries
    ensures !Assembled(op, now).status.Pending?
  {
    HaveAll(op.frags);
    assert Bytes(op.frags) == a.parts by {
      if |op.frags| > 0 { assert op.frags[|op.frags| - 1].Some?; }
    }
  }

  predicate Follows(op: Op, a: Attempt) {
    match op.status
    case Pending => op.have == Have(op.frags) && op.frags != [] && PartOf(op, a)
    case Complete(_, _, _) => WholeOf(op, a)
    case Failed(_) => true
  }

  lemma OpenedPartOf(op: Op, a: Attempt, i: nat)
    requires op.status.Pending? && op.have == Have(op.frags) && (op.frags != [] ==> PartOf(op, a))
    requires i < |a.parts| <= a.count
    ensures var o := Opened(op, Message(op.req, a, i)); PartOf(o, a) && o.have == Have(o.frags)
  {
    HaveNone(a.count);
  }

  lemma OnFragFollows(op: Op, a: Attempt, i: nat, now: int)
    requires op.status.Pending? && op.have == Have(op.frags) && (op.frags != [] ==> PartOf(op, a))
    requires i < |a.parts| <= a.count
    ensures var o := OnFrag(op, Message(op.req, a, i), now); Follows(o, a) && o.req == op.req && o.retries == op.retries
  {
    var m := Message(op.req, a, i);
    OpenedPartOf(op, a, i);
    var o := Opened(op, m);
    if o.frags[i].None? {
      HaveMore(o.frags, i, a.parts[i]);
      var o' := o.(lastFrag := now, frags := o.frags[i := m.data], have := o.have + 1);
      hide Assembled, Have;
      if o'.have >= |o'.frags| { WholeSet(o', a, now); }
    }
  }

  lemma StepKeepsInv(w: World, e: Event)
    requires Inv(w) && Step(w, e).Some?
    ensures Inv(Step(w, e).value)
  {
    hide OnFrag, Have, PartOf, WholeOf, Assembled;
    match e
    case Serve(_, _) =>
    case Refuse(_, _, _) => FinishedEmpty();
    case Deliver(req, i, now) =>
      if req == w.op.req && w.op.status.Pending? {
        OnFragFollows(w.op, w.served[req], i, now);
      }
    case Clock(now, next) =>
      FinishedEmpty();
      assert |w.used + {next}| == |w.used| + 1;
      assert w.used + {w.op.req} == w.used;
  }

  lemma FinishedEmpty()
    ensures Have([]) == 0
  {
  }

  /** Over every run: whatever arrives, a completed read is exactly one attempt, and there are at most three. */
  lemma {:induction false} CompletedReadIsOneAttempt(
    peer: string, offset: nat, length: nat, deadline: int, req: string, es: seq<Event>)
    requires Run(World(Started(peer, offset, length, deadline, req), map[], {req}), es).Some?
    ensures Inv(Run(World(Started(peer, offset, length, deadline, req), map[], {req}), es).value)
    decreases |es|
  {
    if es != [] {
      var w := World(Started(peer, offset, length, deadline, req), map[], {req});
      CompletedReadIsOneAttempt(peer, offset, length, deadline, req, es[..|es| - 1]);
      StepKeepsInv(Run(w, es[..|es| - 1]).value, es[|es| - 1]);
    }
  }

  /**
   Whatever happened to the file while the attempt that completed was served: the result is one
   version's range exactly when each of its fragments was that version's.
   */
  lemma CompletedReadIsVersion(w: World, files: seq<bytes>, version: bytes)
    requires Inv(w) && w.op.status.Complete?
    requires var a, n := w.served[w.op.req], Want(w.served[w.op.req].size, w.op.offset, w.op.length);
             && n >= 0 && a.count == Count(n) && AreParts(a.parts, files, w.op.offset, n)
             && (n > 0 ==> w.op.offset + n <= |version|)
    ensures var a, n := w.served[w.op.req], Want(w.served[w.op.req].size, w.op.offset, w.op.length);
            (Is(w.op.status.data, version, w.op.offset, n)
             <==> forall i: nat | i < |a.parts| :: IsPart(a.parts[i], version, w.op.offset, n, i))
  {
    var a := w.served[w.op.req];
    ReadIsVersion(a.parts, files, version, w.op.offset, Want(a.size, w.op.offset, w.op.length));
  }

  /** If the attempt that completed read an unchanged file, the result is that file's range. */
  lemma CompletedReadIsSlice(w: World, file: bytes, files: seq<bytes>)
    requires Inv(w) && w.op.status.Complete?
    requires var a := w.served[w.op.req];
             && a.size == |file| && a.count == Count(Want(|file|, w.op.offset, w.op.length))
             && AreParts(a.parts, files, w.op.offset, Want(|file|, w.op.offset, w.op.length))
             && forall i | 0 <= i < |files| :: files[i] == file
    ensures w.op.status.data
         == if w.op.offset < |file| then file[w.op.offset..Min(w.op.offset + w.op.length, |file|)] else []
  {
    PartsAreSlice(w.served[w.op.req].parts, file, files, w.op.offset, w.op.length);
  }

  // ---- A file that changes while it is read ----

  /** An attempt at a range of a file of this size; files[i] is the content when fragment i is read. */
  predicate OfVersions(a: Attempt, files: seq<bytes>, size: nat, offset: nat, length: nat) {
    var n := Want(size, offset, length);
    a.size == size && a.count == Count(n) && AreParts(a.parts, files, offset, n)
  }

  /** If the read completed, whatever each attempt saw, its result is the range of a version its attempt saw. */
  ghost predicate Undisturbed(w: World, seen: string -> seq<bytes>, size: nat, offset: nat, length: nat)
    requires 1 <= length
  {
    && w.op.status.Complete?
    && (forall req | req in w.served :: OfVersions(w.served[req], seen(req), size, offset, length))
    ==> OneVersion(w.op.status.data, seen(w.op.req), offset, Want(size, offset, length))
  }

  /** Over every run of a read, and every change of the file during it. */
  ghost predicate SafeRead(size: nat, offset: nat, length: nat)
    requires 1 <= length
  {
    forall peer, deadline, req, es, seen ::
      var w := Run(World(Started(peer, offset, length, deadline, req), map[], {req}), es);
      w.Some? ==> Undisturbed(w.value, seen, size, offset, length)
  }

  /** A whole attempt that the client accepts for this range. */
  predicate Acceptable(a: Attempt, offset: nat, length: nat) {
    && 1 <= |a.parts| == a.count <= MAX_FRAGMENTS && a.size >= 0 && ValidCommit(a.commit)
    && (forall i | 0 <= i < |a.parts| :: |a.parts[i]| <= FRAGMENT)
    && |Concat(a.parts)| == Want(a.size, offset, length)
  }

  /** Fragments that arrived, in the order and as often as they did, with the time of each. */
  type Arrivals = seq<(nat, int)>

  predicate Came(got: Arrivals, i: int) { exists k :: 0 <= k < |got| && got[k].0 == i }

  predicate AllCame(a: Attempt, got: Arrivals) { forall i | 0 <= i < a.count :: Came(got, i) }

  /** What the client holds of an attempt after these arrivals. */
  predicate Holding(op: Op, a: Attempt, got: Arrivals)
    requires |a.parts| == a.count
  {
    && op.status.Pending? && op.have == Have(op.frags)
    && if got == [] then op.frags == []
       else && op.size == a.size && op.commit == a.commit && |op.frags| == a.count
            && forall i | 0 <= i < a.count :: op.frags[i] == if Came(got, i) then Some(a.parts[i]) else None
  }

  lemma CameNext(got: Arrivals, i: nat, now: int, k: int)
    ensures Came(got + [(i, now)], k) <==> Came(got, k) || k == i
  {
    var more := got + [(i, now)];
    if Came(got, k) { var x :| 0 <= x < |got| && got[x].0 == k; assert more[x].0 == k; }
    if k == i { assert more[|got|].0 == k; }
  }

  lemma WholeHeld(op: Op, a: Attempt, now: int)
    requires Acceptable(a, op.offset, op.length) && op.status.Pending? && |op.frags| == a.count
    requires op.size == a.size && op.commit == a.commit
    requires forall i | 0 <= i < a.count :: op.frags[i] == Some(a.parts[i])
    ensures var o := Assembled(op, now);
            && o.status == Complete(Concat(a.parts), a.size, a.commit)
            && o.req == op.req && o.offset == op.offset && o.length == op.length
  {
    assert Bytes(op.frags) == a.parts;
  }

  lemma OpenedHolds(op: Op, a: Attempt, got: Arrivals, i: nat)
    requires Acceptable(a, op.offset, op.length) && i < a.count && Holding(op, a, got)
    ensures var o := Opened(op, Message(op.req, a, i));
            && o.status.Pending? && o.have == Have(o.frags) && |o.frags| == a.count && o.size == a.size
            && o.commit == a.commit && o.req == op.req && o.offset == op.offset && o.length == op.length
            && forall k | 0 <= k < a.count :: o.frags[k] == if Came(got, k) then Some(a.parts[k]) else None
  {
    HaveNone(a.count);
  }

  /** The fragment is put in its place, unless it is already there. */
  function Placed(o: Op, i: nat, data: bytes, now: int): Op
    requires i < |o.frags|
  {
    if o.frags[i].Some? then o.(lastFrag := now)
    else o.(lastFrag := now, frags := o.frags[i := Some(data)], have := o.have + 1)
  }

  lemma OnFragPlaces(op: Op, a: Attempt, got: Arrivals, i: nat, now: int)
    requires Acceptable(a, op.offset, op.length) && i < a.count && Holding(op, a, got)
    ensures var o := Opened(op, Message(op.req, a, i));
            && |o.frags| == a.count
            && var o' := Placed(o, i, a.parts[i], now);
               OnFrag(op, Message(op.req, a, i), now)
               == if o.frags[i].Some? || o'.have < |o'.frags| then o' else Assembled(o', now)
  {
    OpenedHolds(op, a, got, i);
    hide Opened, Assembled, Have, Came, Concat;
  }

  lemma PlacedHolds(o: Op, a: Attempt, got: Arrivals, i: nat, now: int)
    requires |a.parts| == a.count && i < a.count && |o.frags| == a.count && o.have == Have(o.frags)
    requires forall k | 0 <= k < a.count :: o.frags[k] == if Came(got, k) then Some(a.parts[k]) else None
    ensures var o', more := Placed(o, i, a.parts[i], now), got + [(i, now)];
            && o'.have == Have(o'.frags) && |o'.frags| == a.count
            && (o'.have >= |o'.frags| <==> AllCame(a, more))
            && forall k | 0 <= k < a.count :: o'.frags[k] == if Came(more, k) then Some(a.parts[k]) else None
  {
    var o', more := Placed(o, i, a.parts[i], now), got + [(i, now)];
    forall k | 0 <= k < a.count ensures Came(more, k) <==> Came(got, k) || k == i { CameNext(got, i, now, k); }
    if o.frags[i].None? { HaveMore(o.frags, i, a.parts[i]); }
    HaveAll(o'.frags);
    hide Came, Have;
    assert forall k | 0 <= k < a.count :: o'.frags[k] == if Came(more, k) then Some(a.parts[k]) else None;
  }

  /** One more fragment: the read is complete exactly when all have come. */
  lemma NextHeld(op: Op, a: Attempt, got: Arrivals, i: nat, now: int)
    requires Acceptable(a, op.offset, op.length) && i < a.count && Holding(op, a, got) && !AllCame(a, got)
    ensures var o, more := OnFrag(op, Message(op.req, a, i), now), got + [(i, now)];
            && o.req == op.req && o.offset == op.offset && o.length == op.length
            && if AllCame(a, more) then o.status == Complete(Concat(a.parts), a.size, a.commit)
               else Holding(o, a, more)
  {
    var o := Opened(op, Message(op.req, a, i));
    var more := got + [(i, now)];
    OpenedHolds(op, a, got, i);
    OnFragPlaces(op, a, got, i, now);
    PlacedHolds(o, a, got, i, now);
    if o.frags[i].Some? { SameCame(a, got, i, now); }
    var o' := Placed(o, i, a.parts[i], now);
    hide Opened, Assembled, Have, Came, OnFrag, Concat;
    assert o'.req == op.req && o'.offset == op.offset && o'.length == op.length && o'.status.Pending?;
    assert o'.size == a.size && o'.commit == a.commit;
    if AllCame(a, more) { WholeHeld(o', a, now); }
  }

  lemma SameCame(a: Attempt, got: Arrivals, i: nat, now: int)
    requires Came(got, i)
    ensures AllCame(a, got + [(i, now)]) <==> AllCame(a, got)
  {
    forall k ensures Came(got + [(i, now)], k) <==> Came(got, k) { CameNext(got, i, now, k); }
    hide Came;
  }

  /** The grantor's answer, and then these arrivals. */
  function Deliveries(req: string, a: Attempt, got: Arrivals): seq<Event> {
    [Serve(req, a)] + seq(|got|, i requires 0 <= i < |got| => Deliver(req, got[i].0, got[i].1))
  }

  predicate Arrived(w: World, req: string, a: Attempt, offset: nat, length: nat, got: Arrivals)
    requires |a.parts| == a.count
  {
    && w.served == map[req := a] && w.op.req == req && w.op.offset == offset && w.op.length == length
    && if AllCame(a, got) then w.op.status == Complete(Concat(a.parts), a.size, a.commit) else Holding(w.op, a, got)
  }

  lemma NextArrived(w: World, req: string, a: Attempt, offset: nat, length: nat, got: Arrivals, i: nat, now: int)
    requires Acceptable(a, offset, length) && i < a.count && Arrived(w, req, a, offset, length, got)
    ensures var w' := Step(w, Deliver(req, i, now));
            w'.Some? && Arrived(w'.value, req, a, offset, length, got + [(i, now)])
  {
    forall k | 0 <= k < a.count ensures Came(got + [(i, now)], k) <==> Came(got, k) || k == i {
      CameNext(got, i, now, k);
    }
    hide OnFrag, Concat, Came, Have;
    if !AllCame(a, got) { NextHeld(w.op, a, got, i, now); }
  }

  /**
   The fragments of one acceptable attempt, in any order, any number of times: the read is complete,
   with the attempt's data, if and only if every one has come, and it waits otherwise.
   */
  lemma {:induction false} AnyOrderCompletes(
    peer: string, offset: nat, length: nat, deadline: int, req: string, a: Attempt, got: Arrivals)
    requires Acceptable(a, offset, length) && forall k | 0 <= k < |got| :: got[k].0 < a.count
    ensures var w := Run(World(Started(peer, offset, length, deadline, req), map[], {req}), Deliveries(req, a, got));
            w.Some? && Arrived(w.value, req, a, offset, length, got)
    decreases |got|
  {
    var w, es := World(Started(peer, offset, length, deadline, req), map[], {req}), Deliveries(req, a, got);
    if got == [] {
      assert es[..0] == [] && es[0] == Serve(req, a);
      FinishedEmpty();
      assert !Came(got, 0);
    } else {
      var init, last := got[..|got| - 1], got[|got| - 1];
      assert es[..|got|] == Deliveries(req, a, init) && es[|got|] == Deliver(req, last.0, last.1);
      assert got == init + [(last.0, last.1)];
      assert a.count == |a.parts|;
      hide Step, Acceptable, Arrived, Deliveries;
      AnyOrderCompletes(peer, offset, length, deadline, req, a, init);
      NextArrived(Run(w, es[..|got|]).value, req, a, offset, length, init, last.0, last.1);
    }
  }

  /** The grantor's answer, and its fragments in order. */
  function Prompt(req: string, a: Attempt): seq<Event>
    requires a.count >= 0
  {
    Deliveries(req, a, seq(a.count, (i: nat) => (i, 0)))
  }

  lemma PromptCompletes(peer: string, offset: nat, length: nat, deadline: int, req: string, a: Attempt)
    requires Acceptable(a, offset, length)
    ensures var w := Run(World(Started(peer, offset, length, deadline, req), map[], {req}), Prompt(req, a));
            && w.Some? && w.value.served == map[req := a] && w.value.op.req == req
            && w.value.op.offset == offset && w.value.op.length == length
            && w.value.op.status == Complete(Concat(a.parts), a.size, a.commit)
  {
    var got: Arrivals := seq(a.count, (i: nat) => (i, 0));
    assert a.count == |a.parts|;
    forall i | 0 <= i < a.count ensures Came(got, i) { assert got[i].0 == i; }
    hide Run, Acceptable, Concat, Deliveries, Holding;
    AnyOrderCompletes(peer, offset, length, deadline, req, a, got);
  }

  lemma WholeFragments(file: bytes, offset: nat, length: nat)
    requires 1 <= length <= MAX_READ
    ensures var n := Want(|file|, offset, length);
            && Acceptable(Attempt(Fragments(file, offset, n), Count(n), |file|, ""), offset, length)
            && Concat(Fragments(file, offset, n)) == if n == 0 then [] else file[offset..offset + n]
  {
    var n := Want(|file|, offset, length);
    var parts := Fragments(file, offset, n);
    CountBounds(n);
    forall i: nat | i < |parts| ensures |parts[i]| <= FRAGMENT { FragmentOf(file, offset, n, i); }
    if n > 0 { FragmentsJoin(file, offset, n); }
    else { assert parts == [[]] && parts[..0] == []; }
  }

  /** A read that fits in one fragment is of one version, on every run. */
  lemma CompletedReadIsOneVersion(w: World, seen: string -> seq<bytes>, size: nat)
    requires Inv(w) && 1 <= w.op.length && 0 < Want(size, w.op.offset, w.op.length) <= FRAGMENT
    ensures Undisturbed(w, seen, size, w.op.offset, w.op.length)
  {
    if w.op.status.Complete? && w.op.req in w.served
       && OfVersions(w.served[w.op.req], seen(w.op.req), size, w.op.offset, w.op.length) {
      OneFragment(w.served[w.op.req].parts, seen(w.op.req), w.op.offset, Want(size, w.op.offset, w.op.length));
    }
  }

  lemma {:induction false} RunKeepsRange(w: World, es: seq<Event>)
    requires Run(w, es).Some?
    ensures Run(w, es).value.op.offset == w.op.offset && Run(w, es).value.op.length == w.op.length
    decreases |es|
  {
    if es != [] {
      RunKeepsRange(w, es[..|es| - 1]);
      hide Assembled;
      StepKeepsRange(Run(w, es[..|es| - 1]).value, es[|es| - 1]);
    }
  }

  lemma StepKeepsRange(w: World, e: Event)
    requires Step(w, e).Some?
    ensures Step(w, e).value.op.offset == w.op.offset && Step(w, e).value.op.length == w.op.length
  {
  }

  lemma DisturbedRead(a: Attempt, files: seq<bytes>, size: nat, offset: nat, length: nat)
    requires 1 <= length && Acceptable(a, offset, length) && OfVersions(a, files, size, offset, length)
    requires !OneVersion(Concat(a.parts), files, offset, Want(size, offset, length))
    ensures !SafeRead(size, offset, length)
  {
    assert a.count == |a.parts|;
    hide Acceptable, OfVersions, OneVersion, Concat, Run, Prompt, Want;
    PromptCompletes("", offset, length, 0, "r", a);
    var w := Run(World(Started("", offset, length, 0, "r"), map[], {"r"}), Prompt("r", a)).value;
    assert !Undisturbed(w, _ => files, size, offset, length);
  }

  /** A rewrite after the first fragment of a longer read goes unnoticed by the client. */
  lemma RewrittenRead(size: nat, offset: nat, length: nat)
    requires 1 <= length <= MAX_READ && Want(size, offset, length) > FRAGMENT
    ensures !SafeRead(size, offset, length)
  {
    var n, cut := Want(size, offset, length), offset + FRAGMENT;
    var a, b := Filled(0, size), Filled(1, size);
    var mixed, files := Mixed(a, b, cut), Rewriting(a, b, cut, offset, n);
    assert |mixed| == size && offset + n <= size;
    hide Filled, Mixed, Rewriting, Fragments, AreParts, OneVersion, Concat, Count, Want, Acceptable, SafeRead;
    FilledMixture(size, offset, n);
    WholeFragments(mixed, offset, length);
    DisturbedRead(Attempt(Fragments(mixed, offset, n), Count(n), size, ""), files, size, offset, length);
  }

  /** A read survives every change of its file, on every run, exactly when its range fits in one fragment. */
  lemma SafeReadIsExact(size: nat, offset: nat, length: nat)
    requires 1 <= length <= MAX_READ && offset < size
    ensures SafeRead(size, offset, length) <==> Want(size, offset, length) <= 32768
  {
    if Want(size, offset, length) > FRAGMENT {
      RewrittenRead(size, offset, length);
    } else {
      forall peer, deadline, req, es, seen
        | Run(World(Started(peer, offset, length, deadline, req), map[], {req}), es).Some?
        ensures Undisturbed(Run(World(Started(peer, offset, length, deadline, req), map[], {req}), es).value,
                            seen, size, offset, length)
      {
        CompletedReadIsOneAttempt(peer, offset, length, deadline, req, es);
        var w := World(Started(peer, offset, length, deadline, req), map[], {req});
        RunKeepsRange(w, es);
        hide Run, Inv, Undisturbed;
        CompletedReadIsOneVersion(Run(w, es).value, seen, size);
      }
    }
  }

  // ---- One fragment, one tick ----

  /** A fragment message that makes sense by itself. */
  predicate Sensible(m: Frag) {
    && 1 <= m.frags <= 8 && 0 <= m.frag < m.frags && m.size >= 0
    && (m.commit == ""
        || ((|m.commit| == 40 || |m.commit| == 64) && forall c | c in m.commit :: c in "0123456789abcdef"))
  }

  /** It says about the read what the first fragment said. */
  predicate Agrees(op: Op, m: Frag) {
    op.frags == [] || (m.frags == |op.frags| && m.size == op.size && m.commit == op.commit)
  }

  predicate Usable(op: Op, m: Frag) { Sensible(m) && Agrees(op, m) && m.data.Some? && |m.data.value| <= 32768 }

  predicate Has(op: Op, i: int) { 0 <= i < |op.frags| && op.frags[i].Some? }

  /** What is held once the fragment is there too. */
  function With(op: Op, m: Frag): seq<Option<bytes>>
    requires Usable(op, m)
  {
    seq(m.frags, (i: nat) => if i == m.frag then m.data else if Has(op, i) then op.frags[i] else None)
  }

  /** The request, its range and its retries stay as they are. */
  predicate SameRequest(a: Op, b: Op) {
    && a.peer == b.peer && a.offset == b.offset && a.length == b.length && a.deadline == b.deadline
    && a.req == b.req && a.retries == b.retries
  }

  lemma HexDigit(c: char)
    ensures c in "0123456789abcdef" <==> '0' <= c <= '9' || 'a' <= c <= 'f'
  {
    if '0' <= c <= '9' { assert "0123456789abcdef"[c as int - '0' as int] == c; }
    if 'a' <= c <= 'f' { assert "0123456789abcdef"[c as int - 'a' as int + 10] == c; }
  }

  lemma HexText(s: string)
    ensures (forall c | c in s :: c in "0123456789abcdef")
       <==> forall i | 0 <= i < |s| :: '0' <= s[i] <= '9' || 'a' <= s[i] <= 'f'
  {
    if forall c | c in s :: c in "0123456789abcdef" {
      forall i | 0 <= i < |s| ensures '0' <= s[i] <= '9' || 'a' <= s[i] <= 'f' {
        assert s[i] in s;
        HexDigit(s[i]);
      }
    } else {
      var c :| c in s && c !in "0123456789abcdef";
      HexDigit(c);
    }
  }

  lemma SensibleIs(m: Frag)
    ensures Sensible(m)
       <==> 1 <= m.frags <= MAX_FRAGMENTS && 0 <= m.frag < m.frags && m.size >= 0 && ValidCommit(m.commit)
  {
    HexText(m.commit);
  }

  lemma WithIs(op: Op, m: Frag)
    requires Usable(op, m) && !Has(op, m.frag)
    ensures var o := Opened(op, m);
            && |o.frags| == m.frags && o.frags[m.frag].None? && With(op, m) == o.frags[m.frag := m.data]
            && o.size == m.size && o.commit == m.commit
            && (op.have == Have(op.frags) ==> o.have == Have(o.frags) && Have(With(op, m)) == o.have + 1)
  {
    var o := Opened(op, m);
    assert With(op, m) == o.frags[m.frag := m.data];
    HaveNone(m.frags);
    HaveMore(o.frags, m.frag, m.data.value);
  }

  /**
   What a fragment does to a pending read. One that makes no sense, contradicts the first, or is
   not data ends it; one that is there already only counts as a sign of life; and the one that
   completes the set ends it with the joined data, if this has the promised length.
   */
  lemma OnFragExact(op: Op, m: Frag, now: int)
    requires op.status.Pending? && op.have == Have(op.frags)
    ensures var o := OnFrag(op, m, now);
            && SameRequest(op, o)
            && if !Usable(op, m) then o.status == Failed("io_error") && o.finished == now
               else if Has(op, m.frag) then o == op.(lastFrag := now)
               else if exists i | 0 <= i < m.frags :: With(op, m)[i].None? then
                 o == op.(frags := With(op, m), have := op.have + 1, size := m.size, commit := m.commit,
                          lastFrag := now)
               else
                 var all := Concat(Bytes(With(op, m)));
                 && o.finished == now
                 && o.status == if |all| == Want(m.size, op.offset, op.length) then Complete(all, m.size, m.commit)
                                else Failed("io_error")
  {
    SensibleIs(m);
    if Usable(op, m) && !Has(op, m.frag) {
      WithIs(op, m);
      HaveAll(With(op, m));
    }
    hide ValidCommit, Have, Concat, Sensible, With, Want;
  }

  /** What a tick does: a late read times out, and one that stalls half way is asked for again, at most twice. */
  lemma TickExact(op: Op, now: int, next: string)
    requires op.status.Pending? && op.have == Have(op.frags)
    ensures var o := Tick(op, now, next);
            if now >= op.deadline then SameRequest(op, o) && o.status == Failed("timeout") && o.finished == now
            else if && (exists i :: Has(op, i)) && (exists i | 0 <= i < |op.frags| :: op.frags[i].None?)
                    && now - op.lastFrag >= 10_000 && op.retries < 2
            then o == op.(retries := op.retries + 1, req := next, frags := [], have := 0, lastFrag := now)
            else o == op
  {
    HaveAll(op.frags);
    HaveSome(op.frags);
    hide Have;
    if exists i :: Has(op, i) {
      var i :| Has(op, i);
      assert op.frags[i].Some?;
    }
    if i :| 0 <= i < |op.frags| && op.frags[i].Some? { assert Has(op, i); }
  }

  lemma {:induction false} HaveSome(frags: seq<Option<bytes>>)
    ensures Have(frags) > 0 <==> exists i | 0 <= i < |frags| :: frags[i].Some?
  {
    if frags != [] {
      var init := frags[..|frags| - 1];
      HaveSome(init);
      if i :| 0 <= i < |frags| && frags[i].Some? {
        if i < |init| { assert init[i].Some?; }
      }
      if i :| 0 <= i < |init| && init[i].Some? { assert frags[i].Some?; }
    }
  }

  /** A refusal ends the read it names, with its code if that is one to 32 small letters and underscores. */
  lemma RefusedExact(op: Op, req: string, code: string, now: int)
    requires op.status.Pending?
    ensures var o := Refused(op, req, code, now);
            if req != op.req then o == op
            else
              && SameRequest(op, o) && o.finished == now
              && o.status ==
                 Failed(if 1 <= |code| <= 32 && forall c | c in code :: c in LETTERS then code else "io_error")
  {
    forall c: char ensures c in LETTERS <==> 'a' <= c <= 'z' || c == '_' {
      if 'a' <= c <= 'z' { assert LETTERS[c as int - 'a' as int] == c; }
      if c == '_' { assert LETTERS[26] == c; }
    }
    if IsCode(code) {
      forall c | c in code ensures c in LETTERS { var i :| 0 <= i < |code| && code[i] == c; }
    }
    if forall c | c in code :: c in LETTERS { assert forall i | 0 <= i < |code| :: code[i] in code; }
  }

  const LETTERS := "abcdefghijklmnopqrstuvwxyz_"
}
