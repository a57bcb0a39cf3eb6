/**
 Removals whose audit rows may fail: each row is written through a savepoint,
 and a change whose transaction was lost to a row is made once more without
 rows. What every statement does is a parameter.
 */
module SoftRows {
  /** What a change does, in order: parts of the change itself, and its rows. */
  datatype Op = Change(what: string) | Row(what: string)

  /** The outcome of one statement or row. */
  datatype Fate =
    | Works
    | Fails      // a part of the change, or the savepoint statements
    | RowFails   // the row cannot be written; rolling back to the savepoint works
    | Lost       // the row cannot be written and the transaction is gone

  datatype Outcome = Done | LostTx | Failed

  /** How one attempt goes: whether the transaction begins and commits, and the fate of each op. */
  datatype Attempt = Attempt(begins: bool, fates: seq<Fate>, commits: bool)

  function Changes(ops: seq<Op>): seq<string> {
    if ops == [] then []
    else
      var o := ops[|ops| - 1];
      Changes(ops[..|ops| - 1]) + if o.Change? then [o.what] else []
  }

  /** The rows that were written. */
  function Rows(ops: seq<Op>, fates: seq<Fate>): seq<string>
    requires |ops| <= |fates|
  {
    if ops == [] then []
    else
      var i := |ops| - 1;
      Rows(ops[..i], fates) + if ops[i].Row? && fates[i].Works? then [ops[i].what] else []
  }

  /** Nothing goes wrong except rows. */
  predicate OnlyRowsFail(ops: seq<Op>, a: Attempt) {
    && a.begins && a.commits && |a.fates| == |ops|
    && forall i | 0 <= i < |ops| :: if ops[i].Change? then a.fates[i].Works? else !a.fates[i].Fails?
  }

  /** fn in one transaction: with rows, AppendTxSoft for each; without, they are skipped. */
  method Body(ops: seq<Op>, fates: seq<Fate>, withRows: bool)
    returns (r: Outcome, changes: seq<string>, rows: seq<string>)
    requires |fates| == |ops|
    ensures r.Done? ==> changes == Changes(ops) && rows == if withRows then Rows(ops, fates) else []
    ensures !r.Done? ==> changes == [] && rows == []
    ensures r.Done? <==> forall i | 0 <= i < |ops| :: Passes(ops[i], fates[i], withRows)
    ensures r.LostTx? <==> withRows && LosesFirst(ops, fates)
  {
    changes, rows := [], [];
    for i := 0 to |ops|
      invariant changes == Changes(ops[..i]) && rows == if withRows then Rows(ops[..i], fates) else []
      invariant forall j | 0 <= j < i :: Passes(ops[j], fates[j], withRows)
    {
      assert ops[..i + 1][..i] == ops[..i];
      match ops[i]
      case Change(what) =>
        if !fates[i].Works? {
          assert !Passes(ops[i], fates[i], withRows);
          return Failed, [], [];
        }
        changes := changes + [what];
      case Row(what) =>
        if withRows {
          match fates[i]
          case Works => rows := rows + [what];
          case RowFails =>
          case Lost =>
            assert LosesAt(ops, fates, i) && !Passes(ops[i], fates[i], withRows);
            return LostTx, [], [];
          case Fails =>
            assert !Passes(ops[i], fates[i], withRows);
            return Failed, [], [];
        }
    }
    assert ops[..|ops|] == ops;
    r := Done;
  }

  /** A statement after which the transaction goes on: a part of the change that works, or a row that is written,
      cannot be written, or is not tried. */
  predicate Passes(o: Op, f: Fate, withRows: bool) {
    if o.Change? then f.Works? else !withRows || f.Works? || f.RowFails?
  }

  predicate LosesAt(ops: seq<Op>, fates: seq<Fate>, i: nat)
    requires |fates| == |ops|
  {
    i < |ops| && ops[i].Row? && fates[i].Lost? && forall j | 0 <= j < i :: Passes(ops[j], fates[j], true)
  }

  /** The first thing to go wrong is that a row loses the transaction. */
  predicate LosesFirst(ops: seq<Op>, fates: seq<Fate>)
    requires |fates| == |ops|
  {
    exists i: nat :: i < |ops| && LosesAt(ops, fates, i)
  }

  /** An attempt that commits. */
  predicate Commits(ops: seq<Op>, a: Attempt, withRows: bool)
    requires |a.fates| == |ops|
  {
    a.begins && a.commits && forall i | 0 <= i < |ops| :: Passes(ops[i], a.fates[i], withRows)
  }

  /** If only rows go wrong, either everything passes or a row loses the transaction first. */
  lemma {:induction false} RowsOnlyLose(ops: seq<Op>, fates: seq<Fate>, n: nat)
    requires n <= |ops| == |fates|
    requires forall i | 0 <= i < |ops| :: if ops[i].Change? then fates[i].Works? else !fates[i].Fails?
    ensures LosesFirst(ops, fates) || forall i | 0 <= i < n :: Passes(ops[i], fates[i], true)
  {
    if n > 0 {
      RowsOnlyLose(ops, fates, n - 1);
      if !LosesFirst(ops, fates) && fates[n - 1].Lost? { assert LosesAt(ops, fates, n - 1); }
    }
  }

  class Database {
    var changes: seq<string>
    var rows: seq<string>

    constructor ()
      ensures changes == [] && rows == []
    {
      changes, rows := [], [];
    }

    /**
     RunSoft: at most two attempts. Success commits the whole change exactly once, with the rows
     that could be written or with none; failure commits nothing; and when only rows fail, the
     change is made.
     */
    method RunSoft(ops: seq<Op>, first: Attempt, second: Attempt) returns (ok: bool, attempts: nat)
      requires |first.fates| == |ops| == |second.fates|
      modifies this
      ensures attempts == if first.begins && LosesFirst(ops, first.fates) then 2 else 1
      ensures ok <==> if attempts == 1 then Commits(ops, first, true) else Commits(ops, second, false)
      ensures ok ==> changes == old(changes) + Changes(ops)
      ensures ok ==> rows == old(rows) + if attempts == 1 then Rows(ops, first.fates) else []
      ensures !ok ==> changes == old(changes) && rows == old(rows)
      ensures OnlyRowsFail(ops, first) && OnlyRowsFail(ops, second) ==> ok
    {
      if OnlyRowsFail(ops, first) { RowsOnlyLose(ops, first.fates, |ops|); }
      var withRows := true;
      attempts := 0;
      while true
        invariant attempts == if withRows then 0 else 1
        invariant changes == old(changes) && rows == old(rows)
        invariant !withRows ==> first.begins && LosesFirst(ops, first.fates)
        decreases 2 - attempts
      {
        var a := if withRows then first else second;
        attempts := attempts + 1;
        if !a.begins { return false, attempts; }
        var r, c, w := Body(ops, a.fates, withRows);
        if r.Done? {
          if a.commits {
            changes, rows := changes + c, rows + w;
            return true, attempts;
          }
          return false, attempts;
        }
        if !(withRows && r.LostTx?) { return false, attempts; }
        withRows := false;
      }
      ok := false;
    }
  }
}
