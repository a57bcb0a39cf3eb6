/** The command line's loop that reads a whole file, 256 KiB at a time. */
module FetchFile {
  import opened Base
  import opened FetchRead

  datatype ReadResult = ReadResult(chunk: bytes, size: int, commit: string)

  datatype Outcome = Done(data: bytes, size: int, commit: string) | CallFailed | Changed | Unexpected

  /** What the daemon returns for each call at each offset. */
  type Daemon = (nat, nat) -> Option<ReadResult>

  /** The outcome of the loop and the reads it used. */
  datatype Fetched = Fetched(r: Outcome, used: seq<ReadResult>)

  /** The loop after its first read. */
  function Rest(answer: Daemon, call: nat, data: bytes, size: int, commit: string, used: seq<ReadResult>): Fetched
    decreases if |data| < size then size - |data| else 0
  {
    if |data| >= size then Fetched(Done(data, size, commit), used)
    else
      match answer(call, |data|)
      case None => Fetched(CallFailed, used)
      case Some(a) =>
        if a.size != size || a.commit != commit then Fetched(Changed, used)
        else if size > MAX_FILE || a.chunk == [] then Fetched(Unexpected, used)
        else Rest(answer, call + 1, data + a.chunk, size, commit, used + [a])
  }

  function Fetch(answer: Daemon): Fetched {
    match answer(0, 0)
    case None => Fetched(CallFailed, [])
    case Some(a) =>
      if a.size > MAX_FILE || (a.chunk == [] && 0 < a.size) then Fetched(Unexpected, [])
      else Rest(answer, 1, a.chunk, a.size, a.commit, [a])
  }

  /** fetchFile: the loop ends whatever the answers are. */
  method FetchFile(answer: Daemon) returns (r: Outcome, ghost used: seq<ReadResult>)
    ensures Fetched(r, used) == Fetch(answer)
  {
    var data: bytes, size, commit := [], 0, "";
    var first, call := true, 0;
    used := [];
    while first || |data| < size
      invariant first ==> data == [] && used == [] && call == 0
      invariant !first ==> size <= MAX_FILE && Fetch(answer) == Rest(answer, call, data, size, commit, used)
      decreases if first then 1 else 0, size - |data|
    {
      var a := answer(call, |data|);
      if a.None? { return CallFailed, used; }
      var chunk := a.value.chunk;
      if first {
        size, commit := a.value.size, a.value.commit;
      } else if a.value.size != size || a.value.commit != commit {
        return Changed, used;
      }
      if size > MAX_FILE || (chunk == [] && |data| < size) { return Unexpected, used; }
      assert first ==> data + chunk == chunk && used + [a.value] == [a.value];
      data := data + chunk;
      used := used + [a.value];
      first, call := false, call + 1;
    }
    r := Done(data, size, commit);
  }

  // ---- What is returned ----

  /** The range of a file a read returns. */
  function Range(file: bytes, offset: nat, length: nat): (r: bytes)
    ensures |r| == Want(|file|, offset, length)
  {
    if offset < |file| then file[offset..Min(offset + length, |file|)] else []
  }

  function Chunks(used: seq<ReadResult>): seq<bytes> { seq(|used|, i requires 0 <= i < |used| => used[i].chunk) }

  /** Where the i-th read began. */
  function Offset(used: seq<ReadResult>, i: nat): nat
    requires i <= |used|
  {
    |Concat(Chunks(used[..i]))|
  }

  /** All reads reported one size and one commit. */
  predicate SameReport(used: seq<ReadResult>, size: int, commit: string) {
    forall i | 0 <= i < |used| :: used[i].size == size && used[i].commit == commit
  }

  lemma ChunksSnoc(used: seq<ReadResult>, a: ReadResult)
    ensures Concat(Chunks(used + [a])) == Concat(Chunks(used)) + a.chunk
  {
    assert Chunks(used + [a])[..|used|] == Chunks(used);
  }

  lemma {:induction false} RestJoins(
    answer: Daemon, call: nat, data: bytes, size: int, commit: string, used: seq<ReadResult>)
    requires data == Concat(Chunks(used)) && SameReport(used, size, commit)
    ensures var f := Rest(answer, call, data, size, commit, used);
            f.r.Done? ==> && f.r.data == Concat(Chunks(f.used)) && SameReport(f.used, f.r.size, f.r.commit)
                          && |f.r.data| >= f.r.size
    decreases if |data| < size then size - |data| else 0
  {
    if |data| < size && answer(call, |data|).Some? {
      var a := answer(call, |data|).value;
      if a.size == size && a.commit == commit && size <= MAX_FILE && a.chunk != [] {
        ChunksSnoc(used, a);
        RestJoins(answer, call + 1, data + a.chunk, size, commit, used + [a]);
      }
    }
  }

  /** What is returned is the reads' data in order, at least as long as the one size they all reported. */
  lemma FetchJoins(answer: Daemon)
    ensures var f := Fetch(answer);
            f.r.Done? ==> && f.r.data == Concat(Chunks(f.used)) && SameReport(f.used, f.r.size, f.r.commit)
                          && |f.r.data| >= f.r.size
  {
    if answer(0, 0).Some? {
      var a := answer(0, 0).value;
      ChunksSnoc([], a);
      assert [] + [a] == [a] && Chunks([]) == [];
      RestJoins(answer, 1, a.chunk, a.size, a.commit, [a]);
    }
  }

  // ---- A file that does not change ----

  /** Every read that succeeds sees this file at this commit. */
  ghost predicate Sees(answer: Daemon, file: bytes, commit: string) {
    forall call, offset :: answer(call, offset).Some? ==>
      answer(call, offset).value == ReadResult(Range(file, offset, MAX_READ), |file|, commit)
  }

  /** No read fails, at any offset the loop can reach. */
  ghost predicate Answers(answer: Daemon) {
    forall call, k: nat :: answer(call, k * MAX_READ).Some?
  }

  /** The loop stands at the end of its data or a whole number of reads into it. */
  predicate Aligned(data: bytes, size: int) { |data| == size || |data| % MAX_READ == 0 }

  lemma RangeGrows(file: bytes, data: bytes)
    requires |data| <= |file| && data == file[..|data|]
    ensures |data + Range(file, |data|, MAX_READ)| <= |file|
    ensures data + Range(file, |data|, MAX_READ) == file[..|data| + |Range(file, |data|, MAX_READ)|]
    ensures |data| < |file| ==> Range(file, |data|, MAX_READ) != []
    ensures Aligned(data, |file|) ==> Aligned(data + Range(file, |data|, MAX_READ), |file|)
  {
  }

  lemma {:induction false} RestWhole(
    answer: Daemon, call: nat, data: bytes, file: bytes, commit: string, used: seq<ReadResult>)
    requires Sees(answer, file, commit) && |data| <= |file| && data == file[..|data|] && Aligned(data, |file|)
    ensures var r := Rest(answer, call, data, |file|, commit, used).r;
            && (r.Done? ==> r == Done(file, |file|, commit))
            && (Answers(answer) && |file| <= MAX_FILE ==> r == Done(file, |file|, commit))
    decreases |file| - |data|
  {
    RangeGrows(file, data);
    assert |data| < |file| ==> answer(call, |data| / MAX_READ * MAX_READ) == answer(call, |data|);
    hide Range;
    if |data| < |file| && answer(call, |data|).Some? && |file| <= MAX_FILE {
      var a := answer(call, |data|).value;
      RestWhole(answer, call + 1, data + a.chunk, file, commit, used + [a]);
    }
  }

  /** On an unchanged file it is the file; only a failed read or a file over 8 MiB keeps the loop from returning it. */
  lemma FetchWhole(answer: Daemon, file: bytes, commit: string)
    requires Sees(answer, file, commit)
    ensures var r := Fetch(answer).r;
            && (r.Done? ==> r == Done(file, |file|, commit))
            && (Answers(answer) && |file| <= MAX_FILE ==> r == Done(file, |file|, commit))
  {
    RangeGrows(file, []);
    assert answer(0, 0 * MAX_READ) == answer(0, 0);
    if answer(0, 0).Some? {
      var a := answer(0, 0).value;
      assert [] + Range(file, 0, MAX_READ) == a.chunk;
      hide Range, Rest;
      RestWhole(answer, 1, a.chunk, file, commit, [a]);
    }
  }

  // ---- A file that changes between reads ----

  /** Each chunk has the length that the size promises at its offset, as the client makes sure. */
  predicate Promised(used: seq<ReadResult>, size: int) {
    forall i: nat | i < |used| :: |used[i].chunk| == Want(size, Offset(used, i), MAX_READ)
  }

  lemma OffsetNext(used: seq<ReadResult>, i: nat)
    requires i < |used|
    ensures Offset(used, i + 1) == Offset(used, i) + |used[i].chunk|
  {
    ChunksSnoc(used[..i], used[i]);
    assert used[..i + 1] == used[..i] + [used[i]];
  }

  lemma {:induction false} ChunkAt(used: seq<ReadResult>, i: nat)
    requires i < |used|
    ensures Offset(used, i) + |used[i].chunk| <= |Concat(Chunks(used))|
    ensures Concat(Chunks(used))[Offset(used, i)..Offset(used, i) + |used[i].chunk|] == used[i].chunk
    decreases |used|
  {
    var init, last := used[..|used| - 1], used[|used| - 1];
    assert used == init + [last];
    ChunksSnoc(init, last);
    if i == |init| {
      assert used[..i] == init;
    } else {
      ChunkAt(init, i);
      assert init[..i] == used[..i];
    }
  }

  lemma {:induction false} VersionChunks(used: seq<ReadResult>, version: bytes, k: nat)
    requires k <= |used|
    requires forall i: nat | i < k :: used[i].chunk == Range(version, Offset(used, i), MAX_READ)
    ensures Offset(used, k) <= |version| && Concat(Chunks(used[..k])) == version[..Offset(used, k)]
    decreases k
  {
    if k > 0 {
      VersionChunks(used, version, k - 1);
      OffsetNext(used, k - 1);
      ChunksSnoc(used[..k - 1], used[k - 1]);
      assert used[..k] == used[..k - 1] + [used[k - 1]];
      RangeGrows(version, Concat(Chunks(used[..k - 1])));
    }
  }

  /** A complete fetch is one version of the file exactly when each chunk is that version's range at its offset. */
  lemma FetchIsVersion(used: seq<ReadResult>, size: int, version: bytes)
    requires Promised(used, size) && |Concat(Chunks(used))| >= size && |version| == size
    ensures Concat(Chunks(used)) == version
       <==> forall i: nat | i < |used| :: used[i].chunk == Range(version, Offset(used, i), MAX_READ)
  {
    if Concat(Chunks(used)) == version {
      forall i: nat | i < |used| ensures used[i].chunk == Range(version, Offset(used, i), MAX_READ) {
        ChunkAt(used, i);
      }
    }
    if forall i: nat | i < |used| :: used[i].chunk == Range(version, Offset(used, i), MAX_READ) {
      VersionChunks(used, version, |used|);
      assert used[..|used|] == used;
    }
  }

  /** Every read that succeeds sees one of these versions, all of one size and, as in a directory, no commit. */
  ghost predicate Versions(answer: Daemon, vs: set<bytes>, size: nat) {
    && (forall v | v in vs :: |v| == size)
    && forall call, offset :: answer(call, offset).Some? ==> OfOne(answer(call, offset).value, vs, offset, size)
  }

  ghost predicate OfOne(a: ReadResult, vs: set<bytes>, offset: nat, size: nat) {
    exists v :: v in vs && a == ReadResult(Range(v, offset, MAX_READ), size, "")
  }

  /** Whichever version each read sees, what is returned is one of them. */
  ghost predicate NeverMixed(size: nat) {
    forall answer, vs | Versions(answer, vs, size) :: Fetch(answer).r.Done? ==> Fetch(answer).r.data in vs
  }

  /** The first call sees one version, the later ones another of the same size. */
  function Rewritten(a: bytes, b: bytes): Daemon {
    (call: nat, offset: nat) => Some(ReadResult(Range(if call == 0 then a else b, offset, MAX_READ), |a|, ""))
  }

  lemma {:induction false} RestRewritten(a: bytes, b: bytes, call: nat, data: bytes, used: seq<ReadResult>)
    requires MAX_READ <= |data| <= |a| == |b| <= MAX_FILE && data == Mixed(a, b, MAX_READ)[..|data|] && call > 0
    ensures Rest(Rewritten(a, b), call, data, |a|, "", used).r == Done(Mixed(a, b, MAX_READ), |a|, "")
    decreases |a| - |data|
  {
    var mixed := Mixed(a, b, MAX_READ);
    if |data| < |a| {
      assert Range(b, |data|, MAX_READ) == Range(mixed, |data|, MAX_READ);
      RangeGrows(mixed, data);
      var r := ReadResult(Range(b, |data|, MAX_READ), |a|, "");
      assert Rewritten(a, b)(call, |data|) == Some(r);
      RestRewritten(a, b, call + 1, data + r.chunk, used + [r]);
    }
  }

  /**
   A file over one read, written in place after the first: the loop returns the mixture, which
   is one of the two versions only if they agree on one of its halves.
   */
  lemma RewriteGoesUnnoticed(a: bytes, b: bytes)
    requires MAX_READ < |a| == |b| <= MAX_FILE
    ensures Fetch(Rewritten(a, b)).r == Done(Mixed(a, b, MAX_READ), |a|, "")
    ensures Versions(Rewritten(a, b), {a, b}, |a|)
    ensures Mixed(a, b, MAX_READ) in {a, b} <==> a[..MAX_READ] == b[..MAX_READ] || a[MAX_READ..] == b[MAX_READ..]
  {
    var mixed, daemon := Mixed(a, b, MAX_READ), Rewritten(a, b);
    var r := ReadResult(Range(a, 0, MAX_READ), |a|, "");
    assert daemon(0, 0) == Some(r) && r.chunk == mixed[..MAX_READ];
    RestRewritten(a, b, 1, r.chunk, [r]);
    forall call, offset ensures OfOne(daemon(call, offset).value, {a, b}, offset, |a|) {
      var v := if call == 0 then a else b;
      assert v in {a, b} && daemon(call, offset).value == ReadResult(Range(v, offset, MAX_READ), |a|, "");
    }
    assert mixed[..MAX_READ] == a[..MAX_READ] && mixed[MAX_READ..] == b[MAX_READ..];
    assert a == a[..MAX_READ] + a[MAX_READ..] && b == b[..MAX_READ] + b[MAX_READ..];
  }

  /** One read is the whole file, and a file that is too large is not returned at all. */
  lemma OneRead(answer: Daemon, vs: set<bytes>, size: nat)
    requires Versions(answer, vs, size) && (size <= MAX_READ || size > MAX_FILE)
    ensures Fetch(answer).r.Done? ==> Fetch(answer).r.data in vs
  {
    if answer(0, 0).Some? {
      var a := answer(0, 0).value;
      assert OfOne(a, vs, 0, size);
      var v :| v in vs && a == ReadResult(Range(v, 0, MAX_READ), size, "");
      assert size <= MAX_READ ==> a.chunk == v;
    }
  }

  /** A mixture of versions is never returned exactly when the file fits in one read or is over the limit. */
  lemma NeverMixedIsExact(size: nat)
    ensures NeverMixed(size) <==> size <= 262144 || size > 8388608
  {
    if size <= MAX_READ || size > MAX_FILE {
      forall answer, vs | Versions(answer, vs, size) ensures Fetch(answer).r.Done? ==> Fetch(answer).r.data in vs {
        OneRead(answer, vs, size);
      }
    } else {
      hide Fetch, Rewritten, Versions, Mixed, Filled;
      FilledDiffer(size, 0, MAX_READ);
      FilledDiffer(size, MAX_READ, size);
      RewriteGoesUnnoticed(Filled(0, size), Filled(1, size));
    }
  }
}
