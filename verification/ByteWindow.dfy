/**
 The sliding byte budget of a grant: 25 hourly buckets in a ring indexed by
 hour mod 25. `Window` is what the ring stands for, the list of everything
 served; the class keeps only the 25 numbers.
 */
module ByteWindow {
  const BUCKETS := 25

  /** Go's integer division and remainder truncate toward zero. */
  function Quotient(a: int, b: int): int requires b > 0 { if a >= 0 then a / b else -(-a / b) }
  function Remainder(a: int, b: int): int requires b > 0 { a - Quotient(a, b) * b }

  function UnixHour(seconds: int): int { Quotient(seconds, 3600) }

  /** bucket: hour's index in the ring, also for a clock before 1970. */
  function Bucket(hour: int): int { Remainder(Remainder(hour, BUCKETS) + BUCKETS, BUCKETS) }

  lemma BucketIsModulo(hour: int)
    ensures Bucket(hour) == hour % BUCKETS
  {
    if hour < 0 {
      assert -hour == (-hour / BUCKETS) * BUCKETS + -hour % BUCKETS;
    }
  }

  /** n bytes that count for a clock hour. */
  datatype Entry = Entry(hour: int, n: int)

  /** The newest hour seen, and everything added, each entry under the hour it counts for. */
  datatype Window = Window(hour: int, entries: seq<Entry>)

  predicate Counts(hour: int, e: Entry) { e.hour > hour - BUCKETS }

  /** The bytes that count: those of the newest hour and the 24 before it. */
  function Recent(hour: int, entries: seq<Entry>): int {
    if entries == [] then 0
    else
      var e := entries[|entries| - 1];
      Recent(hour, entries[..|entries| - 1]) + (if Counts(hour, e) then e.n else 0)
  }

  function Total(w: Window): int { Recent(w.hour, w.entries) }

  /** The clock only moves a window forward. */
  function RollTo(w: Window, hour: int): Window { w.(hour := if hour > w.hour then hour else w.hour) }

  /** Bytes count for the window's hour after rolling, so a clock that steps back adds to the newest hour. */
  function AddTo(w: Window, hour: int, n: int): Window {
    var r := RollTo(w, hour);
    r.(entries := r.entries + [Entry(r.hour, n)])
  }

  // ---- Buckets ----

  /** The counting bytes whose hour falls in bucket i. */
  function InBucket(hour: int, entries: seq<Entry>, i: int): int {
    if entries == [] then 0
    else
      var e := entries[|entries| - 1];
      InBucket(hour, entries[..|entries| - 1], i) + (if Counts(hour, e) && e.hour % BUCKETS == i then e.n else 0)
  }

  function Sum(b: seq<int>): int { if b == [] then 0 else Sum(b[..|b| - 1]) + b[|b| - 1] }

  lemma {:induction false} SumUpdate(b: seq<int>, i: nat, x: int)
    requires i < |b|
    ensures Sum(b[i := x]) == Sum(b) - b[i] + x
  {
    var init := b[..|b| - 1];
    if i == |b| - 1 {
      assert b[i := x][..|b| - 1] == init;
    } else {
      assert b[i := x][..|b| - 1] == init[i := x];
      SumUpdate(init, i, x);
    }
  }

  lemma {:induction false} SumZero(b: seq<int>)
    requires forall i | 0 <= i < |b| :: b[i] == 0
    ensures Sum(b) == 0
  {
    if b != [] { SumZero(b[..|b| - 1]); }
  }

  function Spread(hour: int, entries: seq<Entry>): (b: seq<int>)
    ensures |b| == BUCKETS
  {
    seq(BUCKETS, i requires 0 <= i < BUCKETS => InBucket(hour, entries, i))
  }

  /** Each counting entry is in exactly one bucket, so the buckets add up to the total. */
  lemma {:induction false} SpreadAddsUp(hour: int, entries: seq<Entry>)
    ensures Sum(Spread(hour, entries)) == Recent(hour, entries)
    decreases |entries|
  {
    if entries == [] {
      SumZero(Spread(hour, entries));
    } else {
      var init, e := entries[..|entries| - 1], entries[|entries| - 1];
      SpreadAddsUp(hour, init);
      var b, i := Spread(hour, init), e.hour % BUCKETS;
      if Counts(hour, e) {
        SumUpdate(b, i, b[i] + e.n);
        assert Spread(hour, entries) == b[i := b[i] + e.n];
      } else {
        assert Spread(hour, entries) == b;
      }
    }
  }

  predicate NotLater(hour: int, entries: seq<Entry>) { forall i | 0 <= i < |entries| :: entries[i].hour <= hour }

  lemma Period(hour: int)
    ensures (hour - BUCKETS) % BUCKETS == hour % BUCKETS
  {
  }

  lemma Congruent(a: int, b: int)
    requires a % BUCKETS == b % BUCKETS && b - BUCKETS < a <= b
    ensures a == b
  {
  }

  /** Moving one hour on takes exactly the entries of the reused bucket out of the count. */
  lemma EntryOneHourOn(hour: int, e: Entry)
    requires e.hour <= hour
    ensures Counts(hour + 1, e) <==> Counts(hour, e) && e.hour % BUCKETS != (hour + 1) % BUCKETS
  {
    Period(hour + 1);
    if Counts(hour + 1, e) && e.hour % BUCKETS == (hour + 1) % BUCKETS { Congruent(e.hour, hour + 1); }
  }

  /** One hour on, only the bucket that is reused changes, to zero: what it held stops counting. */
  lemma {:induction false} NextHour(hour: int, entries: seq<Entry>, i: int)
    requires NotLater(hour, entries)
    ensures InBucket(hour + 1, entries, i) == if i == (hour + 1) % BUCKETS then 0 else InBucket(hour, entries, i)
    decreases |entries|
  {
    if entries != [] {
      NextHour(hour, entries[..|entries| - 1], i);
      hide Counts;
      EntryOneHourOn(hour, entries[|entries| - 1]);
    }
  }

  /** A gap of 25 hours or more empties every bucket. */
  lemma {:induction false} LongGap(hour: int, entries: seq<Entry>, later: int, i: int)
    requires NotLater(hour, entries) && later - hour >= BUCKETS
    ensures InBucket(later, entries, i) == 0
    decreases |entries|
  {
    if entries != [] { LongGap(hour, entries[..|entries| - 1], later, i); }
  }

  lemma SpreadNext(hour: int, entries: seq<Entry>)
    requires NotLater(hour, entries)
    ensures 0 <= Bucket(hour + 1) < BUCKETS
    ensures Spread(hour + 1, entries) == Spread(hour, entries)[Bucket(hour + 1) := 0]
  {
    BucketIsModulo(hour + 1);
    hide Bucket, InBucket;
    var was, next := Spread(hour, entries), Spread(hour + 1, entries);
    forall i | 0 <= i < BUCKETS ensures next[i] == was[Bucket(hour + 1) := 0][i] { NextHour(hour, entries, i); }
  }

  lemma SpreadAdd(hour: int, entries: seq<Entry>, n: int)
    ensures 0 <= Bucket(hour) < BUCKETS
    ensures var s := Spread(hour, entries);
            Spread(hour, entries + [Entry(hour, n)]) == s[Bucket(hour) := s[Bucket(hour)] + n]
  {
    BucketIsModulo(hour);
    hide Bucket;
    var more := entries + [Entry(hour, n)];
    assert more[..|more| - 1] == entries;
    assert forall i :: InBucket(hour, more, i) == InBucket(hour, entries, i) + if hour % BUCKETS == i then n else 0;
  }

  lemma {:induction false} TotalNeverGrows(hour: int, entries: seq<Entry>, later: int)
    requires hour <= later && forall i | 0 <= i < |entries| :: entries[i].n >= 0
    ensures 0 <= Recent(later, entries) <= Recent(hour, entries)
    decreases |entries|
  {
    if entries != [] { TotalNeverGrows(hour, entries[..|entries| - 1], later); }
  }

  /** Whole hours since 1970, rounded toward it. */
  lemma UnixHourExact(seconds: int)
    ensures seconds >= 0 ==> UnixHour(seconds) * 3600 <= seconds < UnixHour(seconds) * 3600 + 3600
    ensures seconds <= 0 ==> UnixHour(seconds) * 3600 - 3600 < seconds <= UnixHour(seconds) * 3600
  {
  }

  /** The bytes of the entries in these hours. */
  function Between(entries: seq<Entry>, from: int, to: int): int {
    if entries == [] then 0
    else
      var e := entries[|entries| - 1];
      Between(entries[..|entries| - 1], from, to) + if from <= e.hour <= to then e.n else 0
  }

  /** What counts at an hour is what was served in it and the 24 before, and nothing older. */
  lemma {:induction false} CountsLast25(w: Window, hour: int)
    requires NotLater(w.hour, w.entries)
    ensures var r := RollTo(w, hour);
            r.hour == (if hour <= w.hour then w.hour else hour) && Total(r) == Between(w.entries, r.hour - 24, r.hour)
    decreases |w.entries|
  {
    if w.entries != [] {
      var e := w.entries[|w.entries| - 1];
      assert e.hour <= w.hour;
      CountsLast25(Window(w.hour, w.entries[..|w.entries| - 1]), hour);
    }
  }

  /** byteWindow: the newest hour and 25 numbers. The entries are only for the proof. */
  class Ring {
    var hour: int
    const b: array<int>
    ghost var entries: seq<Entry>

    ghost function View(): Window
      reads this
    {
      Window(hour, entries)
    }

    ghost predicate Valid()
      reads this, b
    {
      b.Length == BUCKETS && NotLater(hour, entries) && b[..] == Spread(hour, entries)
    }

    constructor (start: int)
      ensures Valid() && fresh(b) && View() == Window(start, [])
    {
      hour := start;
      b := new int[BUCKETS](_ => 0);
      entries := [];
      new;
      assert b[..] == Spread(hour, entries);
    }

    method ClearAll()
      requires b.Length == BUCKETS
      modifies b
      ensures forall i | 0 <= i < BUCKETS :: b[i] == 0
    {
      for i := 0 to BUCKETS
        invariant forall j | 0 <= j < i :: b[j] == 0
      {
        b[i] := 0;
      }
    }

    /** roll: zero the buckets that fell out of the window. */
    method Roll(to: int)
      requires Valid()
      modifies this`hour, b
      ensures Valid() && View() == RollTo(old(View()), to)
    {
      if to <= hour { return; }
      if to - hour >= BUCKETS {
        ClearAll();
        forall i | 0 <= i < BUCKETS ensures b[i] == Spread(to, entries)[i] { LongGap(hour, entries, to, i); }
      } else {
        var h := hour;
        while h < to
          invariant hour <= h <= to && NotLater(h, entries) && b[..] == Spread(h, entries)
        {
          SpreadNext(h, entries);
          hide Spread, Bucket;
          ghost var was := b[..];
          b[Bucket(h + 1)] := 0;
          assert b[..] == was[Bucket(h + 1) := 0];
          h := h + 1;
        }
      }
      hour := to;
    }

    /** sum: the bytes of the current hour and the 24 before it. */
    method Served(now: int) returns (n: int)
      requires Valid()
      modifies this`hour, b
      ensures Valid() && View() == RollTo(old(View()), UnixHour(now)) && n == Total(View())
    {
      Roll(UnixHour(now));
      n := 0;
      for i := 0 to BUCKETS
        invariant n == Sum(b[..i])
      {
        assert b[..i + 1][..i] == b[..i];
        n := n + b[i];
      }
      assert b[..BUCKETS] == b[..];
      SpreadAddsUp(hour, entries);
    }

    /** The update of addServed. */
    method Add(n: int, now: int)
      requires Valid()
      modifies this, b
      ensures Valid() && View() == AddTo(old(View()), UnixHour(now), n)
    {
      Roll(UnixHour(now));
      SpreadAdd(hour, entries, n);
      hide Spread, Bucket;
      ghost var was := b[..];
      b[Bucket(hour)] := b[Bucket(hour)] + n;
      assert b[..] == was[Bucket(hour) := was[Bucket(hour)] + n];
      entries := entries + [Entry(hour, n)];
    }
  }
}
