/**
 What an anchor is worth. If a log verifies against a hash recorded earlier
 from another verified log, the two logs agree on every row up to that point,
 the rows that never had a stored hash included, unless SHA-256 was made to
 collide on two of the very inputs these logs hash.
 */
module ChainAnchors {
  import opened Base
  import opened Chain
  import opened Documents
  import Hex
  import Utf8

  // ---- What a successful walk establishes ----

  /** Everything the checks establish about the rows walked so far. */
  ghost predicate Established(lib: Lib, anchors: seq<Anchor>, rows: seq<Row>, st: Walk) {
    && st.prev == Link(lib, rows)
    && (forall i | 0 <= i < |rows| :: WellFormed(lib, rows[i]) && Canonicalizable(rows[i]))
    && (forall i | 0 <= i < |rows| && rows[i].hash.Some? :: rows[i].hash.value == Hex.Encode(Link(lib, rows[..i + 1])))
    && (forall i | 0 <= i < |rows| && rows[i].hash.Some? :: AnchorsHold(anchors, rows[i].id, rows[i].hash.value))
    && (forall id | id in st.seen :: exists i | 0 <= i < |rows| :: rows[i].id == id)
    && (forall i | 0 <= i < |rows| && rows[i].hash.None? && Anchored(anchors, rows[i].id) && rows[i].id != 0 ::
          st.legacyAnchor != 0)
  }

  lemma EstablishedNext(lib: Lib, anchors: seq<Anchor>, rows: seq<Row>, st: Walk, r: Row)
    requires Established(lib, anchors, rows, st)
    requires CheckRow(lib, anchors, st, r).status.Intact? && st.status.Intact?
    ensures Established(lib, anchors, rows + [r], CheckRow(lib, anchors, st, r))
  {
    hide WellFormed, HashInput, Link, Hex.Encode, AnchorsHold, Anchored, Ascii;
    var next := CheckRow(lib, anchors, st, r);
    var all := rows + [r];
    LinkSnoc(lib, rows, r);
    assert all[..|rows| + 1] == all;
    forall i | 0 <= i < |rows| ensures all[i] == rows[i] && all[..i + 1] == rows[..i + 1] { }
    forall id | id in next.seen ensures exists i | 0 <= i < |all| :: all[i].id == id {
      if id in st.seen {
        var i :| 0 <= i < |rows| && rows[i].id == id;
        assert all[i].id == id;
      } else {
        assert all[|rows|].id == id;
      }
    }
  }

  lemma WalkSnoc(lib: Lib, anchors: seq<Anchor>, rows: seq<Row>, r: Row)
    ensures WalkRows(lib, anchors, rows + [r]) ==
      var st := WalkRows(lib, anchors, rows);
      if st.status.Intact? then CheckRow(lib, anchors, st, r) else st
  {
    hide CheckRow;
    assert (rows + [r])[..|rows|] == rows;
  }

  lemma {:induction false} WalkEstablishes(lib: Lib, anchors: seq<Anchor>, rows: seq<Row>)
    requires WalkRows(lib, anchors, rows).status.Intact?
    ensures Established(lib, anchors, rows, WalkRows(lib, anchors, rows))
  {
    hide CheckRow, Established, WalkRows, Link;
    if rows == [] {
      assert WalkRows(lib, anchors, []) == Start(lib) by { WalkNothing(lib, anchors); }
      EstablishedStart(lib, anchors);
    } else {
      var init, r := rows[..|rows| - 1], rows[|rows| - 1];
      assert rows == init + [r];
      WalkSnoc(lib, anchors, init, r);
      WalkEstablishes(lib, anchors, init);
      EstablishedNext(lib, anchors, init, WalkRows(lib, anchors, init), r);
    }
  }

  lemma WalkNothing(lib: Lib, anchors: seq<Anchor>)
    ensures WalkRows(lib, anchors, []) == Start(lib)
  {
  }

  lemma EstablishedStart(lib: Lib, anchors: seq<Anchor>)
    ensures Established(lib, anchors, [], Start(lib))
  {
  }

  lemma {:induction false} NoneMissing(anchors: seq<Anchor>, seen: set<int>, i: nat)
    requires i < |anchors| && anchors[i].id > 0 && (forall j | 0 <= j < |anchors| :: anchors[j].id > 0)
    requires LeastMissing(anchors, seen) == 0
    ensures anchors[i].id in seen
  {
    var init := anchors[..|anchors| - 1];
    assert LeastMissing(init, seen) >= 0 by { LeastMissingSign(init, seen); }
    if i < |init| { NoneMissing(init, seen, i); }
  }

  lemma {:induction false} LeastMissingSign(anchors: seq<Anchor>, seen: set<int>)
    requires forall j | 0 <= j < |anchors| :: anchors[j].id > 0
    ensures LeastMissing(anchors, seen) >= 0
  {
    if anchors != [] { LeastMissingSign(anchors[..|anchors| - 1], seen); }
  }

  /** A verified anchor sits on a stored row whose hash is the anchor's. */
  lemma AnchorFound(lib: Lib, anchors: seq<Anchor>, rows: seq<Row>, a: nat) returns (i: nat)
    requires Verdict(lib, anchors, rows).status.Intact?
    requires a < |anchors| && (forall j | 0 <= j < |anchors| :: anchors[j].id > 0)
    ensures i < |rows| && rows[i].id == anchors[a].id && rows[i].hash == Some(anchors[a].hash)
  {
    hide WalkRows, LeastMissing, WellFormed, Link, Hex.Encode;
    var st := WalkRows(lib, anchors, rows);
    WalkEstablishes(lib, anchors, rows);
    NoneMissing(anchors, st.seen, a);
    i :| 0 <= i < |rows| && rows[i].id == anchors[a].id;
    assert Anchored(anchors, rows[i].id);
  }

  // ---- Equal chain values mean equal histories ----

  /** The inputs hashed to build the chain of these rows. */
  ghost function Inputs(lib: Lib, rows: seq<Row>): set<bytes> {
    if rows == [] then {Ascii(GENESIS_LABEL)}
    else Inputs(lib, rows[..|rows| - 1]) + {HashInput(Link(lib, rows[..|rows| - 1]), rows[|rows| - 1])}
  }

  /** No two of these inputs collide. */
  ghost predicate CollisionFree(lib: Lib, inputs: set<bytes>) {
    forall x, y | x in inputs && y in inputs && lib.sha256(x) == lib.sha256(y) :: x == y
  }

  /** The genesis label and the row label separate the two kinds of input. */
  lemma LabelsApart(prev: bytes, r: Row)
    ensures Ascii(GENESIS_LABEL) != HashInput(prev, r)
  {
    hide RowBytes, Utf8.Encode;
    AsciiEncode(GENESIS_LABEL);
    AsciiEncode(ROW_LABEL);
    assert GENESIS_LABEL[16] == 'g' && ROW_LABEL[16] == 'v';
    assert HashInput(prev, r)[16] == Ascii(ROW_LABEL)[16];
  }

  lemma HashInputInjective(p: bytes, r: Row, q: bytes, s: Row)
    requires |p| == |q| && HashInput(p, r) == HashInput(q, s)
    ensures p == q && RowBytes(r) == RowBytes(s)
  {
    hide RowBytes, Ascii;
    var n := |Ascii(ROW_LABEL)|;
    var x, y := HashInput(p, r), HashInput(q, s);
    assert p == x[n..n + |p|] && q == y[n..n + |q|];
    assert RowBytes(r) == x[n + |p|..] && RowBytes(s) == y[n + |q|..];
  }

  lemma LinkDigest(lib: Lib, rows: seq<Row>)
    requires Digests(lib)
    ensures |Link(lib, rows)| == 32
  {
    hide HashInput;
  }

  ghost predicate Sound(lib: Lib, rows: seq<Row>) {
    forall i | 0 <= i < |rows| :: TextsValid(rows[i]) && Canonicalizable(rows[i])
  }

  function Contents(rows: seq<Row>): (c: seq<Content>)
    ensures |c| == |rows|
  {
    seq(|rows|, i requires 0 <= i < |rows| => ContentOf(rows[i]))
  }

  lemma LinkInInputs(lib: Lib, rows: seq<Row>)
    requires rows != []
    ensures HashInput(Link(lib, rows[..|rows| - 1]), rows[|rows| - 1]) in Inputs(lib, rows)
    ensures Inputs(lib, rows[..|rows| - 1]) <= Inputs(lib, rows)
  {
    hide HashInput, Link;
  }

  lemma {:induction false} GenesisInInputs(lib: Lib, rows: seq<Row>)
    ensures Ascii(GENESIS_LABEL) in Inputs(lib, rows)
  {
    hide HashInput, Link, Ascii;
    if rows != [] { GenesisInInputs(lib, rows[..|rows| - 1]); }
  }

  lemma EmptyOnly(lib: Lib, rows: seq<Row>, all: set<bytes>)
    requires rows != [] && Inputs(lib, rows) <= all && Ascii(GENESIS_LABEL) in all && CollisionFree(lib, all)
    ensures Link(lib, rows) != Link(lib, [])
  {
    hide HashInput, Ascii;
    LinkInInputs(lib, rows);
    LabelsApart(Link(lib, rows[..|rows| - 1]), rows[|rows| - 1]);
  }

  lemma LastRowSame(lib: Lib, a: seq<Row>, b: seq<Row>, all: set<bytes>)
    requires Digests(lib) && Sound(lib, a) && Sound(lib, b) && a != [] && b != []
    requires Inputs(lib, a) <= all && Inputs(lib, b) <= all && CollisionFree(lib, all)
    requires Link(lib, a) == Link(lib, b)
    ensures Link(lib, a[..|a| - 1]) == Link(lib, b[..|b| - 1])
    ensures ContentOf(a[|a| - 1]) == ContentOf(b[|b| - 1])
  {
    hide HashInput, Inputs, TextsValid, RowBytes;
    var p, q := Link(lib, a[..|a| - 1]), Link(lib, b[..|b| - 1]);
    LinkDigest(lib, a[..|a| - 1]);
    LinkDigest(lib, b[..|b| - 1]);
    LinkInInputs(lib, a);
    LinkInInputs(lib, b);
    HashInputInjective(p, a[|a| - 1], q, b[|b| - 1]);
    RowBytesInjective(a[|a| - 1], b[|b| - 1]);
  }

  lemma SoundInit(lib: Lib, rows: seq<Row>)
    requires Sound(lib, rows) && rows != []
    ensures Sound(lib, rows[..|rows| - 1])
    ensures Contents(rows) == Contents(rows[..|rows| - 1]) + [ContentOf(rows[|rows| - 1])]
  {
    hide TextsValid, ContentOf;
  }

  /** A chain value fixes the whole history behind it. */
  lemma {:induction false} LinkFixesHistory(lib: Lib, a: seq<Row>, b: seq<Row>, all: set<bytes>)
    requires Digests(lib) && Sound(lib, a) && Sound(lib, b)
    requires Inputs(lib, a) <= all && Inputs(lib, b) <= all && CollisionFree(lib, all)
    requires Link(lib, a) == Link(lib, b)
    ensures Contents(a) == Contents(b)
    decreases |a|
  {
    hide Link, Inputs, CollisionFree, Sound, ContentOf, Contents;
    GenesisInInputs(lib, a);
    if a == [] {
      if b != [] { EmptyOnly(lib, b, all); }
    } else if b == [] {
      EmptyOnly(lib, a, all);
    } else {
      LastRowSame(lib, a, b, all);
      LinkInInputs(lib, a);
      LinkInInputs(lib, b);
      SoundInit(lib, a);
      SoundInit(lib, b);
      LinkFixesHistory(lib, a[..|a| - 1], b[..|b| - 1], all);
    }
  }

  lemma {:induction false} InputsOfPrefix(lib: Lib, rows: seq<Row>, n: nat)
    requires n <= |rows|
    ensures Inputs(lib, rows[..n]) <= Inputs(lib, rows)
    decreases |rows|
  {
    hide Link, HashInput, Inputs;
    if n == |rows| {
      assert rows[..n] == rows;
    } else {
      var init := rows[..|rows| - 1];
      InputsOfPrefix(lib, init, n);
      assert init[..n] == rows[..n];
      LinkInInputs(lib, rows);
    }
  }

  /** The rows of a log with an id up to k. */
  function UpTo(rows: seq<Row>, k: int): seq<Row> {
    if rows == [] then []
    else if rows[0].id <= k then [rows[0]] + UpTo(rows[1..], k)
    else UpTo(rows[1..], k)
  }

  lemma {:induction false} UpToIsPrefix(rows: seq<Row>, i: nat)
    requires Increasing(rows) && i < |rows|
    ensures UpTo(rows, rows[i].id) == rows[..i + 1]
  {
    if i == 0 {
      UpToNothing(rows[1..], rows[0].id);
      assert rows[..1] == [rows[0]];
    } else {
      UpToIsPrefix(rows[1..], i - 1);
      assert rows[..i + 1] == [rows[0]] + rows[1..][..i];
    }
  }

  lemma {:induction false} UpToNothing(rows: seq<Row>, k: int)
    requires forall j | 0 <= j < |rows| :: rows[j].id > k
    ensures UpTo(rows, k) == []
  {
    if rows != [] { UpToNothing(rows[1..], k); }
  }

  lemma VerifiedRows(lib: Lib, anchors: seq<Anchor>, rows: seq<Row>, i: nat)
    requires Verdict(lib, anchors, rows).status.Intact? && i < |rows|
    ensures Sound(lib, rows[..i + 1])
    ensures rows[i].hash.Some? ==> rows[i].hash.value == Hex.Encode(Link(lib, rows[..i + 1]))
  {
    hide WalkRows, Link, Hex.Encode, LeastMissing;
    WalkEstablishes(lib, anchors, rows);
  }

  /** Anchors fix history: two verified logs that share one stored hash share every row up to it. */
  lemma AnchorsFixHistory(lib: Lib, rows1: seq<Row>, anchors1: seq<Anchor>, i1: nat,
                          rows2: seq<Row>, anchors2: seq<Anchor>, a: nat)
    requires Digests(lib) && CollisionFree(lib, Inputs(lib, rows1) + Inputs(lib, rows2))
    requires Increasing(rows1) && Increasing(rows2)
    requires Verdict(lib, anchors1, rows1).status.Intact? && Verdict(lib, anchors2, rows2).status.Intact?
    requires i1 < |rows1| && a < |anchors2| && (forall j | 0 <= j < |anchors2| :: anchors2[j].id > 0)
    requires rows1[i1].id == anchors2[a].id && rows1[i1].hash == Some(anchors2[a].hash)
    ensures Contents(UpTo(rows1, rows1[i1].id)) == Contents(UpTo(rows2, rows1[i1].id))
  {
    hide Verdict, Link, Inputs, CollisionFree, Sound, Hex.Encode, Contents, UpTo;
    var i2 := AnchorFound(lib, anchors2, rows2, a);
    VerifiedRows(lib, anchors1, rows1, i1);
    VerifiedRows(lib, anchors2, rows2, i2);
    Hex.EncodeInjective(Link(lib, rows1[..i1 + 1]), Link(lib, rows2[..i2 + 1]));
    InputsOfPrefix(lib, rows1, i1 + 1);
    InputsOfPrefix(lib, rows2, i2 + 1);
    LinkFixesHistory(lib, rows1[..i1 + 1], rows2[..i2 + 1], Inputs(lib, rows1) + Inputs(lib, rows2));
    UpToIsPrefix(rows1, i1);
    UpToIsPrefix(rows2, i2);
  }
}
