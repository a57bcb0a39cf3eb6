/**
 How a worker serves one request: the order of releasing, auditing and
 answering on every path, including the ones that fail half way. The trace
 records what the rest of the system sees; the once-only closures are flags.
 */
module FetchRun {
  import opened Base

  datatype Response = Refusal(code: string) | Answer | Fragment(last: bool, size: nat)

  datatype Event =
    | TookGrant
    | FreedGrant
    | FreedPeer
    | Counted(n: nat)
    | Audited(bytes: nat, result: string)
    | Sent(r: Response)

  datatype Kind = Taking | FreeingGrant | FreeingPeer | Auditing | Other

  function KindOf(e: Event): Kind {
    match e
    case TookGrant => Taking
    case FreedGrant => FreeingGrant
    case FreedPeer => FreeingPeer
    case Audited(_, _) => Auditing
    case _ => Other
  }

  /** What the checks and the backend do to the request. */
  datatype Script =
    | Refused(code: string)                          // Handle already decided to refuse
    | Early(code: string)                            // malformed, stale, not authorised or not admitted
    | Blocked(code: string)                          // admitted, but no backend or a bad path
    | Meta(fault: Option<string>, sent: bool)        // stat or list
    | Read(frags: seq<Piece>)                        // read, with the fate of each fragment

  /** A fragment: an error before it, or its size and whether the send worked. */
  datatype Piece = Piece(size: nat, fault: Option<string>, sent: bool)

  /** After the last response the peer may send its next request. */
  predicate Final(e: Event) { e.Sent? && (e.r.Fragment? ==> e.r.last) }

  function Number(t: seq<Event>, k: Kind): nat {
    if t == [] then 0 else Number(t[..|t| - 1], k) + if KindOf(t[|t| - 1]) == k then 1 else 0
  }

  function BytesCounted(t: seq<Event>): nat {
    if t == [] then 0 else BytesCounted(t[..|t| - 1]) + if t[|t| - 1].Counted? then t[|t| - 1].n else 0
  }

  function BytesSent(t: seq<Event>): nat {
    if t == [] then 0
    else
      var e := t[|t| - 1];
      BytesSent(t[..|t| - 1]) + if e.Sent? && e.r.Fragment? then e.r.size else 0
  }

  /** Everything the request held is free again and its audit row is written. */
  predicate Settled(t: seq<Event>) {
    Number(t, FreeingPeer) == 1 && Number(t, Auditing) == 1 && Number(t, Taking) == Number(t, FreeingGrant)
  }

  /** Nothing is sent last before the request is settled, and no fragment before its bytes are counted. */
  predicate Orderly(t: seq<Event>) {
    forall i | 0 <= i < |t| && t[i].Sent? ::
      (Final(t[i]) ==> Settled(t[..i])) && BytesSent(t[..i + 1]) <= BytesCounted(t[..i])
  }

  lemma Append(t: seq<Event>, e: Event)
    requires Orderly(t)
    requires e.Sent? ==> (Final(e) ==> Settled(t)) && BytesSent(t + [e]) <= BytesCounted(t)
    ensures Orderly(t + [e])
    ensures forall k :: Number(t + [e], k) == Number(t, k) + if KindOf(e) == k then 1 else 0
    ensures BytesCounted(t + [e]) == BytesCounted(t) + if e.Counted? then e.n else 0
    ensures BytesSent(t + [e]) == BytesSent(t) + if e.Sent? && e.r.Fragment? then e.r.size else 0
  {
    var u := t + [e];
    assert u[..|t|] == t;
    forall i | 0 <= i < |u| && u[i].Sent?
      ensures (Final(u[i]) ==> Settled(u[..i])) && BytesSent(u[..i + 1]) <= BytesCounted(u[..i])
    {
      if i < |t| {
        assert u[..i] == t[..i] && u[..i + 1] == t[..i + 1];
      } else {
        assert u[..i + 1] == u;
      }
    }
  }

  lemma SentSnoc(t: seq<Event>, e: Event)
    ensures BytesSent(t + [e]) == BytesSent(t) + if e.Sent? && e.r.Fragment? then e.r.size else 0
  {
    assert (t + [e])[..|t|] == t;
  }

  // ---- What is seen of each request ----

  /** The end of a request that failed: one row, one refusal. */
  function Failing(bytes: nat, code: string): seq<Event> { [Audited(bytes, code), Sent(Refusal(code))] }

  const RELEASED := [FreedGrant, FreedPeer]

  /** The fragments from i on, after `sent` bytes were delivered. */
  function Reading(frags: seq<Piece>, i: nat, sent: nat): seq<Event>
    requires i < |frags|
    decreases |frags| - i
  {
    var f, last := frags[i], i == |frags| - 1;
    if f.fault.Some? then RELEASED + Failing(sent, f.fault.value)
    else
      [Counted(f.size)] + (if last then RELEASED + [Audited(sent + f.size, "ok")] else [])
      + [Sent(Fragment(last, f.size))] + AfterSend(frags, i, sent)
  }

  /** What follows the send of fragment i: the next one, nothing, or the end of a request whose send failed. */
  function AfterSend(frags: seq<Piece>, i: nat, sent: nat): seq<Event>
    requires i < |frags|
    decreases |frags| - i, 0
  {
    var f, last := frags[i], i == |frags| - 1;
    if f.sent then if last then [] else Reading(frags, i + 1, sent + f.size)
    else if last then [Sent(Refusal("io_error"))]
    else RELEASED + Failing(sent, "io_error")
  }

  /** Everything that is seen of a request, in order. */
  function Story(s: Script): seq<Event>
    requires s.Read? ==> s.frags != []
  {
    match s
    case Refused(code) => [FreedPeer, Sent(Refusal(code))]
    case Early(code) => [FreedPeer] + Failing(0, code)
    case Blocked(code) => [TookGrant] + RELEASED + Failing(0, code)
    case Meta(fault, sent) =>
      if fault.Some? then [TookGrant] + RELEASED + Failing(0, fault.value)
      else
        [TookGrant] + RELEASED + [Audited(0, "ok"), Sent(Answer)]
        + if sent then [] else [Sent(Refusal("io_error"))]
    case Read(frags) => [TookGrant] + Reading(frags, 0, 0)
  }

  /** How many leading fragments are read and delivered. */
  function Delivered(frags: seq<Piece>, i: nat): nat
    requires i <= |frags|
    decreases |frags| - i
  {
    if i < |frags| && frags[i].fault.None? && frags[i].sent then 1 + Delivered(frags, i + 1) else 0
  }

  function Size(frags: seq<Piece>): nat {
    if frags == [] then 0 else Size(frags[..|frags| - 1]) + frags[|frags| - 1].size
  }

  /** The audit row of a read: all bytes and "ok" if even the last fragment could be read, else the bytes delivered. */
  lemma {:induction false} ReadAudited(frags: seq<Piece>, i: nat)
    requires i < |frags|
    ensures var n := i + Delivered(frags, i);
            && n <= |frags|
            && var whole := n >= |frags| - 1 && frags[|frags| - 1].fault.None?;
               var code := if whole then "ok" 
                           else if n < |frags| && frags[n].fault.Some? then frags[n].fault.value else "io_error";
               Audited(Size(if whole then frags else frags[..n]), code) in Reading(frags, i, Size(frags[..i]))
    decreases |frags| - i
  {
    var f, sent := frags[i], Size(frags[..i]);
    assert frags[..i + 1][..i] == frags[..i];
    assert frags[..|frags|] == frags;
    if f.fault.None? && f.sent && i < |frags| - 1 {
      ReadAudited(frags, i + 1);
    } else if f.fault.None? && i == |frags| - 1 {
      var head := [Counted(f.size)] + (RELEASED + [Audited(sent + f.size, "ok")]);
      assert head[3] == Audited(Size(frags), "ok");
      assert Reading(frags, i, sent)[3] == head[3];
    } else if f.fault.Some? {
      assert Reading(frags, i, sent)[2] == Audited(sent, f.fault.value);
    } else {
      var head := [Counted(f.size)] + [] + [Sent(Fragment(false, f.size))];
      assert Reading(frags, i, sent) == head + (RELEASED + Failing(sent, "io_error"));
      assert Reading(frags, i, sent)[4] == Audited(sent, "io_error");
    }
  }

  class Job {
    var released: bool
    var holding: bool
    var audited: bool
    ghost var trace: seq<Event>

    ghost predicate Valid()
      reads this
    {
      && Orderly(trace)
      && Number(trace, FreeingPeer) == (if released then 1 else 0)
      && Number(trace, Auditing) == (if audited then 1 else 0)
      && Number(trace, Taking) == Number(trace, FreeingGrant) + (if holding then 1 else 0)
    }

    constructor ()
      ensures Valid() && trace == [] && !released && !holding && !audited
    {
      released, holding, audited, trace := false, false, false, [];
    }

    method Take()
      requires Valid() && !holding
      modifies this
      ensures Valid() && holding && released == old(released) && audited == old(audited)
      ensures trace == old(trace) + [TookGrant]
      ensures BytesSent(trace) == BytesSent(old(trace)) && BytesCounted(trace) == BytesCounted(old(trace))
    {
      Append(trace, TookGrant);
      holding, trace := true, trace + [TookGrant];
    }

    /** done: release, once. */
    method Done()
      requires Valid()
      modifies this`released, this`trace
      ensures Valid() && released && trace == old(trace) + if old(released) then [] else [FreedPeer]
      ensures BytesSent(trace) == BytesSent(old(trace)) && BytesCounted(trace) == BytesCounted(old(trace))
    {
      if !released {
        Append(trace, FreedPeer);
        released, trace := true, trace + [FreedPeer];
      }
    }

    /** finish: give back the grant's slot, then done, once. */
    method Finish()
      requires Valid()
      modifies this`released, this`holding, this`trace
      ensures Valid() && !holding && (old(holding) ==> released) && (!old(holding) ==> released == old(released))
      ensures BytesSent(trace) == BytesSent(old(trace)) && BytesCounted(trace) == BytesCounted(old(trace))
      ensures trace == old(trace) +
              if !old(holding) then [] else [FreedGrant] + if old(released) then [] else [FreedPeer]
    {
      if holding {
        Append(trace, FreedGrant);
        holding, trace := false, trace + [FreedGrant];
        Done();
      }
    }

    /** audit: at most one row. */
    method Audit(bytes: nat, result: string)
      requires Valid()
      modifies this`audited, this`trace
      ensures Valid() && audited && trace == old(trace) + if old(audited) then [] else [Audited(bytes, result)]
      ensures BytesSent(trace) == BytesSent(old(trace)) && BytesCounted(trace) == BytesCounted(old(trace))
    {
      if !audited {
        Append(trace, Audited(bytes, result));
        audited, trace := true, trace + [Audited(bytes, result)];
      }
    }

    method Respond(r: Response)
      requires Valid() && (Final(Sent(r)) ==> released && audited && !holding)
      requires BytesSent(trace) + (if r.Fragment? then r.size else 0) <= BytesCounted(trace)
      modifies this`trace
      ensures Valid() && trace == old(trace) + [Sent(r)]
      ensures BytesSent(trace) == BytesSent(old(trace)) + (if r.Fragment? then r.size else 0)
      ensures BytesCounted(trace) == BytesCounted(old(trace))
    {
      SentSnoc(trace, Sent(r));
      Append(trace, Sent(r));
      trace := trace + [Sent(r)];
    }

    method CountBytes(n: nat)
      requires Valid()
      modifies this`trace
      ensures Valid() && trace == old(trace) + [Counted(n)]
      ensures BytesSent(trace) == BytesSent(old(trace)) && BytesCounted(trace) == BytesCounted(old(trace)) + n
    {
      Append(trace, Counted(n));
      trace := trace + [Counted(n)];
    }

    /** The read of serve: fragment after fragment until one fails. */
    method Fragments(frags: seq<Piece>) returns (sent: nat, err: Option<string>)
      requires Valid() && holding && !released && !audited && frags != [] && BytesSent(trace) <= BytesCounted(trace)
      modifies this
      ensures Valid() && BytesSent(trace) <= BytesCounted(trace) && (holding || released)
      ensures err.None? ==> released && audited && !holding && trace != [] && Final(trace[|trace| - 1])
      ensures err.None? ==> trace == old(trace) + Reading(frags, 0, 0)
      ensures err.Some? ==>
                && (holding <==> !released) && (holding <==> !audited)
                && trace + (if holding then RELEASED + Failing(sent, err.value) else [Sent(Refusal(err.value))])
                   == old(trace) + Reading(frags, 0, 0)
    {
      hide Orderly, Number, BytesSent, BytesCounted, Reading, AfterSend;
      sent, err := 0, None;
      var i := 0;
      while i < |frags|
        invariant 0 <= i <= |frags| && Valid() && BytesSent(trace) <= BytesCounted(trace)
        invariant i < |frags| ==> holding && !released && !audited
        invariant i == |frags| ==> released && audited && !holding && trace != [] && Final(trace[|trace| - 1])
        invariant trace + (if i < |frags| then Reading(frags, i, sent) else []) == old(trace) + Reading(frags, 0, 0)
      {
        var f := frags[i];
        ghost var before := trace;
        ReadingStep(frags, i, sent, before);
        if f.fault.Some? { return sent, f.fault; }
        CountBytes(f.size);
        if i == |frags| - 1 {
          Finish();
          Audit(sent + f.size, "ok");
        }
        Respond(Fragment(i == |frags| - 1, f.size));
        assert trace == Shown(frags, i, sent, before);
        if !f.sent { return sent, Some("io_error"); }
        sent := sent + f.size;
        i := i + 1;
      }
    }

    /** The stat or list of serve. */
    method Describe(fault: Option<string>, ok: bool) returns (err: Option<string>)
      requires Valid() && holding && !released && !audited && BytesSent(trace) <= BytesCounted(trace)
      modifies this
      ensures Valid() && BytesSent(trace) <= BytesCounted(trace)
      ensures err == if fault.Some? then fault else if ok then None else Some("io_error")
      ensures fault.Some? ==> holding && !released && !audited && trace == old(trace)
      ensures fault.None? ==> !holding && released && audited
                              && trace == old(trace) + (RELEASED + [Audited(0, "ok"), Sent(Answer)])
    {
      hide Orderly, Number, BytesSent, BytesCounted;
      if fault.Some? { return fault; }
      Finish();
      Audit(0, "ok");
      Respond(Answer);
      err := if ok then None else Some("io_error");
    }

    /** serve after admission, up to its deferred finish. */
    method Work(s: Script) returns (sent: nat, err: Option<string>)
      requires Valid() && trace == [] && !holding && !released && !audited
      requires s.Blocked? || s.Meta? || (s.Read? && s.frags != [])
      modifies this
      ensures Valid() && BytesSent(trace) <= BytesCounted(trace) && (holding <==> !released) && (holding <==> !audited)
      ensures Left(trace, holding, sent, err) == Story(s)
      ensures err.None? ==> !holding && trace != [] && Final(trace[|trace| - 1])
    {
      NothingYet();
      hide Orderly, Number, BytesSent, BytesCounted, Reading, Failing;
      Take();
      sent, err := 0, None;
      match s {
        case Blocked(code) => err := Some(code);
        case Meta(fault, ok) => err := Describe(fault, ok);
        case Read(frags) => sent, err := Fragments(frags);
      }
      Opening(s);
    }

    /** serve after admission, with its deferred finish. */
    method Admitted(s: Script) returns (sent: nat, err: Option<string>)
      requires Valid() && trace == [] && !holding && !released && !audited
      requires s.Blocked? || s.Meta? || (s.Read? && s.frags != [])
      modifies this
      ensures Valid() && !holding && released && BytesSent(trace) <= BytesCounted(trace)
      ensures err.None? ==> audited && trace != [] && Final(trace[|trace| - 1]) && trace == Story(s)
      ensures err.Some? ==>
                trace + (if audited then [] else [Audited(sent, err.value)]) + [Sent(Refusal(err.value))] == Story(s)
    {
      hide Orderly, Number, BytesSent, BytesCounted, Story;
      sent, err := Work(s);
      ghost var before := trace;
      Finish();
      if err.Some? { Ending(before, sent, err.value); }
    }

    /** The part of run that serves: its outcome is audited and, if it failed, answered. */
    method Serve(s: Script)
      requires Valid() && trace == [] && !holding && !released && !audited
      requires !s.Refused? && (s.Read? ==> s.frags != [])
      modifies this
      ensures Valid() && released && audited && !holding && trace != [] && Final(trace[|trace| - 1])
      ensures trace == Story(s)
    {
      NothingYet();
      hide Orderly, Number, BytesSent, BytesCounted, Reading;
      var sent, err := 0, None;
      if s.Early? { err := Some(s.code); } else { sent, err := Admitted(s); }
      if err.Some? {
        Done();
        Audit(sent, err.value);
        Respond(Refusal(err.value));
      } else {
        Audit(sent, "ok");
      }
    }

    /**
     run: on every path the request's slots are freed exactly once, its audit row is written
     exactly once, and both happen before any response that can be the last one. A request
     refused by Handle is only released and answered.
     */
    method Run(s: Script)
      requires Valid() && trace == [] && !holding && !released && !audited && (s.Read? ==> s.frags != [])
      modifies this
      ensures trace == Story(s)
      ensures !s.Refused? ==> Orderly(trace) && Settled(trace) && trace != [] && Final(trace[|trace| - 1])
    {
      hide Orderly, Number, BytesSent, BytesCounted;
      if s.Refused? {
        Done();
        trace := trace + [Sent(Refusal(s.code))];
      } else {
        Serve(s);
      }
    }
  }

  /** The trace after fragment i was sent. */
  ghost function Shown(frags: seq<Piece>, i: nat, sent: nat, before: seq<Event>): seq<Event>
    requires i < |frags|
  {
    var f, last := frags[i], i == |frags| - 1;
    before + [Counted(f.size)] + (if last then RELEASED + [Audited(sent + f.size, "ok")] else [])
    + [Sent(Fragment(last, f.size))]
  }

  lemma ReadingStep(frags: seq<Piece>, i: nat, sent: nat, before: seq<Event>)
    requires i < |frags|
    ensures var f, last := frags[i], i == |frags| - 1;
            && (f.fault.Some? ==> Reading(frags, i, sent) == RELEASED + Failing(sent, f.fault.value))
            && (f.fault.None? ==>
                  before + Reading(frags, i, sent) == Shown(frags, i, sent, before) + AfterSend(frags, i, sent))
            && (f.sent ==> AfterSend(frags, i, sent) == if last then [] else Reading(frags, i + 1, sent + f.size))
            && (!f.sent ==> AfterSend(frags, i, sent)
                            == if last then [Sent(Refusal("io_error"))] else RELEASED + Failing(sent, "io_error"))
  {
  }

  /** What will have been seen at the end of a request that stands here. */
  ghost function Left(trace: seq<Event>, holding: bool, sent: nat, err: Option<string>): seq<Event> {
    if err.None? then trace
    else trace + if holding then RELEASED + Failing(sent, err.value) else [Sent(Refusal(err.value))]
  }

  /** The request's story from the taking of its grant's slot on. */
  lemma Opening(s: Script)
    requires s.Blocked? || s.Meta? || (s.Read? && s.frags != [])
    ensures s.Blocked? ==> Story(s) == [] + [TookGrant] + (RELEASED + Failing(0, s.code))
    ensures s.Meta? && s.fault.Some? ==> Story(s) == [] + [TookGrant] + (RELEASED + Failing(0, s.fault.value))
    ensures s.Meta? && s.fault.None? ==>
              var t := [] + [TookGrant] + (RELEASED + [Audited(0, "ok"), Sent(Answer)]);
              Story(s) == if s.sent then t else t + [Sent(Refusal("io_error"))]
    ensures s.Read? ==> Story(s) == [] + [TookGrant] + Reading(s.frags, 0, 0)
  {
    hide Reading;
  }

  lemma Ending(before: seq<Event>, sent: nat, code: string)
    ensures before + [FreedGrant] + [FreedPeer] + [Audited(sent, code)] + [Sent(Refusal(code))]
         == before + (RELEASED + Failing(sent, code))
    ensures before + ([FreedGrant] + [FreedPeer]) + [Audited(sent, code)] + [Sent(Refusal(code))]
         == before + (RELEASED + Failing(sent, code))
    ensures before + [] + [Sent(Refusal(code))] == before + [Sent(Refusal(code))]
    ensures before + [] == before
  {
  }

  lemma NothingYet()
    ensures BytesSent([]) == 0 == BytesCounted([])
  {
  }
}
