/**
 From the grantor's disk to the command line: whatever the network does with
 the fragments of each read, the loop returns the file.
 */
module FetchWhole {
  import opened Base
  import opened FetchRead
  import opened Reassembly
  import FetchFile

  /** One read of the loop: its first request and everything that happens to it. */
  datatype Read = Read(peer: string, deadline: int, req: string, events: seq<Event>)

  /** The reads the loop makes, by call and offset. */
  type Reads = (nat, nat) -> Read

  function World0(read: Read, offset: nat): World {
    World(Started(read.peer, offset, MAX_READ, read.deadline, read.req), map[], {read.req})
  }

  /** What a read gives the loop: its result, if it completes. */
  function Result(read: Read, offset: nat): Option<FetchFile.ReadResult> {
    match Run(World0(read, offset), read.events)
    case None => None
    case Some(w) =>
      match w.op.status
      case Complete(data, size, commit) => Some(FetchFile.ReadResult(data, size, commit))
      case _ => None
  }

  function Daemon(made: Reads): FetchFile.Daemon {
    (call: nat, offset: nat) => Result(made(call, offset), offset)
  }

  /** An attempt is what the fragment loop makes of this file. */
  predicate OfFile(a: Attempt, file: bytes, commit: string, offset: nat) {
    var n := Want(|file|, offset, MAX_READ);
    && a.size == |file| && a.commit == commit && a.count == Count(n)
    && AreParts(a.parts, seq(a.count, _ => file), offset, n)
  }

  /** Every attempt the grantor serves, in every read, is of this file. */
  ghost predicate Serves(made: Reads, file: bytes, commit: string) {
    forall call, offset ::
      var w := Run(World0(made(call, offset), offset), made(call, offset).events);
      w.Some? ==> forall req | req in w.value.served :: OfFile(w.value.served[req], file, commit, offset)
  }

  /** A read that completes gives the file's range. */
  lemma ResultIsRange(read: Read, offset: nat, file: bytes, commit: string)
    requires Result(read, offset).Some?
    requires var w := Run(World0(read, offset), read.events).value;
             forall req | req in w.served :: OfFile(w.served[req], file, commit, offset)
    ensures Result(read, offset)
         == Some(FetchFile.ReadResult(FetchFile.Range(file, offset, MAX_READ), |file|, commit))
  {
    var w := Run(World0(read, offset), read.events).value;
    CompletedReadIsOneAttempt(read.peer, offset, MAX_READ, read.deadline, read.req, read.events);
    RunKeepsRange(World0(read, offset), read.events);
    hide Run;
    var a := w.served[w.op.req];
    CompletedReadIsSlice(w, file, seq(a.count, _ => file));
  }

  /**
   For every order, duplication and loss of fragments and every retry, in every read: on a file
   that does not change, what the loop returns is the file, and it returns it when every read
   completes and the file is at most 8 MiB.
   */
  lemma WholeFileArrives(made: Reads, file: bytes, commit: string)
    requires Serves(made, file, commit)
    ensures var r := FetchFile.Fetch(Daemon(made)).r;
            && (r.Done? ==> r == FetchFile.Done(file, |file|, commit))
            && (FetchFile.Answers(Daemon(made)) && |file| <= MAX_FILE ==> r == FetchFile.Done(file, |file|, commit))
  {
    forall call, offset | Daemon(made)(call, offset).Some?
      ensures Daemon(made)(call, offset).value
           == FetchFile.ReadResult(FetchFile.Range(file, offset, MAX_READ), |file|, commit)
    {
      ResultIsRange(made(call, offset), offset, file, commit);
    }
    hide Result;
    FetchFile.FetchWhole(Daemon(made), file, commit);
  }

  // ---- A file that changes on the way ----

  /** Each fragment of an attempt was read from one of these versions. */
  ghost predicate OfSome(a: Attempt, vs: set<bytes>, size: nat, offset: nat) {
    exists files :: (forall f | f in files :: f in vs) && OfVersions(a, files, size, offset, MAX_READ)
  }

  /** Every attempt the grantor serves reads versions of one size, in a directory, where there is no commit. */
  ghost predicate ServesVersions(made: Reads, vs: set<bytes>, size: nat) {
    && (forall v | v in vs :: |v| == size)
    && forall call, offset ::
         var w := Run(World0(made(call, offset), offset), made(call, offset).events);
         w.Some? ==> forall req | req in w.value.served ::
           OfSome(w.value.served[req], vs, size, offset) && w.value.served[req].commit == ""
  }

  /** Whatever the network does and however the file changes, what the loop returns is one of its versions. */
  ghost predicate ArrivesWhole(size: nat) {
    forall made, vs | ServesVersions(made, vs, size) ::
      var r := FetchFile.Fetch(Daemon(made)).r;
      r.Done? ==> r.data in vs
  }

  /** A completed read of a small file is a version of it; every completed read reports its size. */
  lemma ResultIsVersion(read: Read, offset: nat, vs: set<bytes>, size: nat)
    requires Result(read, offset).Some? && forall v | v in vs :: |v| == size
    requires var w := Run(World0(read, offset), read.events).value;
             forall req | req in w.served :: OfSome(w.served[req], vs, size, offset)
    ensures Result(read, offset).value.size == size
    ensures offset == 0 && size <= FRAGMENT ==> Result(read, offset).value.chunk in vs
  {
    var w := Run(World0(read, offset), read.events).value;
    CompletedReadIsOneAttempt(read.peer, offset, MAX_READ, read.deadline, read.req, read.events);
    RunKeepsRange(World0(read, offset), read.events);
    hide Run;
    var a := w.served[w.op.req];
    assert OfSome(a, vs, size, offset);
    if offset == 0 && size <= FRAGMENT {
      var files :| (forall f | f in files :: f in vs) && OfVersions(a, files, size, offset, MAX_READ);
      SmallAttempt(a, files, size);
    }
  }

  lemma SmallAttempt(a: Attempt, files: seq<bytes>, size: nat)
    requires OfVersions(a, files, size, 0, MAX_READ) && size <= FRAGMENT && |a.parts| == a.count
    requires forall f | f in files :: |f| == size
    ensures Concat(a.parts) in files
  {
    if size > 0 {
      OneFragment(a.parts, files, 0, size);
      var v :| v in files && size <= |v| && Concat(a.parts) == v[0..size];
      assert v[0..size] == v;
    } else {
      assert IsPart(a.parts[0], files[0], 0, 0, 0) && a.parts == [[]] && a.parts[..0] == [];
      assert files[0] in files && files[0] == [];
    }
  }

  lemma SmallFileArrives(made: Reads, vs: set<bytes>, size: nat)
    requires ServesVersions(made, vs, size) && (size <= FRAGMENT || size > MAX_FILE)
    ensures var r := FetchFile.Fetch(Daemon(made)).r;
            r.Done? ==> r.data in vs
  {
    if Daemon(made)(0, 0).Some? {
      ResultIsVersion(made(0, 0), 0, vs, size);
    }
  }

  /** A read whose first request is answered with this file, in order, at each offset the loop can reach. */
  function Served(file: bytes): Reads {
    (call: nat, offset: nat) =>
      if offset % MAX_READ == 0 then Read("", 0, "r", Prompt("r", Whole(file, offset)))
      else Read("", 0, "r", [])
  }

  function Whole(file: bytes, offset: nat): Attempt {
    var n := Want(|file|, offset, MAX_READ);
    Attempt(Fragments(file, offset, n), Count(n), |file|, "")
  }

  lemma ServedWorld(file: bytes, call: nat, offset: nat)
    ensures var read := Served(file)(call, offset);
            var w := Run(World0(read, offset), read.events);
            && w.Some?
            && w.value.served == (if offset % MAX_READ == 0 then map["r" := Whole(file, offset)] else map[])
            && (offset % MAX_READ == 0 ==> Result(read, offset).Some?)
            && OfFile(Whole(file, offset), file, "", offset)
  {
    WholeFragments(file, offset, MAX_READ);
    FragmentsAreParts(file, offset, Want(|file|, offset, MAX_READ));
    hide Acceptable, AreParts, Fragments;
    var a := Whole(file, offset);
    if offset % MAX_READ == 0 {
      hide Run;
      PromptCompletes("", offset, MAX_READ, 0, "r", a);
    }
  }

  /** The loop returns a file of at most 8 MiB when its reads are answered. */
  lemma ServedArrives(file: bytes)
    requires |file| <= MAX_FILE
    ensures FetchFile.Fetch(Daemon(Served(file))).r == FetchFile.Done(file, |file|, "")
  {
    var made := Served(file);
    forall call: nat, offset: nat
      ensures var w := Run(World0(made(call, offset), offset), made(call, offset).events);
              w.Some? ==> forall req | req in w.value.served :: OfFile(w.value.served[req], file, "", offset)
      ensures offset % MAX_READ == 0 ==> Daemon(made)(call, offset).Some?
    {
      ServedWorld(file, call, offset);
    }
    hide Served, OfFile, Run, Result, FetchFile.Fetch;
    assert FetchFile.Answers(Daemon(made));
    WholeFileArrives(made, file, "");
  }

  /** Rewritten after the first fragment of its first read, a file is served as a mixture that its versions explain. */
  lemma MixtureServed(a: bytes, b: bytes)
    requires |a| == |b| > FRAGMENT
    ensures ServesVersions(Served(Mixed(a, b, FRAGMENT)), {a, b}, |a|)
  {
    var mixed := Mixed(a, b, FRAGMENT);
    var made := Served(mixed);
    forall call: nat, offset: nat
      ensures var w := Run(World0(made(call, offset), offset), made(call, offset).events);
              w.Some? ==> forall req | req in w.value.served ::
                OfSome(w.value.served[req], {a, b}, |a|, offset) && w.value.served[req].commit == ""
    {
      ServedWorld(mixed, call, offset);
      if offset % MAX_READ == 0 { MixtureOfSome(a, b, offset); }
    }
  }

  lemma MixtureOfSome(a: bytes, b: bytes, offset: nat)
    requires |a| == |b| > FRAGMENT && offset % MAX_READ == 0
    ensures OfSome(Whole(Mixed(a, b, FRAGMENT), offset), {a, b}, |a|, offset)
  {
    var n := Want(|a|, offset, MAX_READ);
    var files := Rewriting(a, b, FRAGMENT, offset, n);
    assert offset == 0 || FRAGMENT <= offset;
    hide Fragments, Mixed, Rewriting, AreParts;
    MixedParts(a, b, FRAGMENT, offset, n);
    assert OfVersions(Whole(Mixed(a, b, FRAGMENT), offset), files, |a|, offset, MAX_READ);
  }

  lemma MixtureIsNeither(size: nat)
    requires FRAGMENT < size
    ensures Mixed(Filled(0, size), Filled(1, size), FRAGMENT) !in {Filled(0, size), Filled(1, size)}
  {
    var a, b := Filled(0, size), Filled(1, size);
    var mixed := Mixed(a, b, FRAGMENT);
    assert mixed[0..FRAGMENT] == a[0..FRAGMENT] && mixed[FRAGMENT..size] == b[FRAGMENT..size];
    hide Filled, Mixed;
    FilledDiffer(size, 0, FRAGMENT);
    FilledDiffer(size, FRAGMENT, size);
  }

  lemma LargeFileMixed(size: nat)
    requires FRAGMENT < size <= MAX_FILE
    ensures !ArrivesWhole(size)
  {
    var a, b := Filled(0, size), Filled(1, size);
    var mixed := Mixed(a, b, FRAGMENT);
    assert |mixed| == size;
    hide Filled, Served, ServesVersions, Daemon, FetchFile.Fetch, Mixed, ArrivesWhole;
    MixtureIsNeither(size);
    MixtureServed(a, b);
    ServedArrives(mixed);
    Refutes(Served(mixed), {a, b}, size);
  }

  lemma Refutes(made: Reads, vs: set<bytes>, size: nat)
    requires ServesVersions(made, vs, size)
    requires FetchFile.Fetch(Daemon(made)).r.Done? && FetchFile.Fetch(Daemon(made)).r.data !in vs
    ensures !ArrivesWhole(size)
  {
    hide ServesVersions, Daemon, FetchFile.Fetch;
  }

  /**
   From the grantor's disk to the command line, over every run and every change of the file: what
   is returned is one version of it exactly when it fits in one fragment or is over the limit.
   */
  lemma ArrivesWholeIsExact(size: nat)
    ensures ArrivesWhole(size) <==> size <= 32768 || size > 8388608
  {
    if size <= FRAGMENT || size > MAX_FILE {
      forall made, vs | ServesVersions(made, vs, size)
        ensures var r := FetchFile.Fetch(Daemon(made)).r;
                r.Done? ==> r.data in vs
      {
        SmallFileArrives(made, vs, size);
      }
    } else {
      LargeFileMixed(size);
    }
  }
}
