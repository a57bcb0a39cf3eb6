/** Lists of times, in milliseconds, of which those of the last 24 hours count. */
module RollingDay {
  const DAY := 86_400_000

  /** The times younger than a day, in order. */
  function Recent(times: seq<int>, now: int): seq<int> {
    if times == [] then []
    else
      var t := times[|times| - 1];
      Recent(times[..|times| - 1], now) + if t > now - DAY then [t] else []
  }

  lemma {:induction false} RecentShrinks(times: seq<int>, now: int, later: int)
    requires now <= later
    ensures |Recent(times, later)| <= |Recent(times, now)| <= |times|
  {
    if times != [] { RecentShrinks(times[..|times| - 1], now, later); }
  }

  lemma {:induction false} RecentAgain(times: seq<int>, now: int)
    ensures Recent(Recent(times, now), now) == Recent(times, now)
  {
    if times != [] {
      var init, t := Recent(times[..|times| - 1], now), times[|times| - 1];
      RecentAgain(times[..|times| - 1], now);
      if t > now - DAY {
        assert (init + [t])[..|init|] == init && (init + [t])[|init|] == t;
      } else {
        assert Recent(times, now) == init;
      }
    }
  }

  lemma RecentAdd(times: seq<int>, now: int)
    ensures Recent(Recent(times, now) + [now], now) == Recent(times, now) + [now]
  {
    RecentAgain(times, now);
    assert (Recent(times, now) + [now])[..|Recent(times, now)|] == Recent(times, now);
  }

  lemma RecentSnoc(times: seq<int>, t: int, now: int)
    ensures Recent(times + [t], now) == Recent(times, now) + if t > now - DAY then [t] else []
  {
    assert (times + [t])[..|times|] == times;
  }

  /** What is dropped now would not count later either. */
  lemma {:induction false} RecentLater(times: seq<int>, now: int, later: int)
    requires now <= later
    ensures Recent(Recent(times, now), later) == Recent(times, later)
  {
    if times != [] {
      var init, t := times[..|times| - 1], times[|times| - 1];
      RecentLater(init, now, later);
      if t > now - DAY {
        RecentSnoc(Recent(init, now), t, later);
      } else {
        assert Recent(times, now) == Recent(init, now);
        assert Recent(times, later) == Recent(init, later);
      }
    }
  }

  predicate Ordered(times: seq<int>) { forall i, j | 0 <= i < j < |times| :: times[i] <= times[j] }

  /** In an ordered list the recent times are a suffix. */
  lemma {:induction false} RecentSuffix(times: seq<int>, i: nat, now: int)
    requires Ordered(times) && i < |times| && times[i] > now - DAY
    ensures |Recent(times, now)| >= |times| - i
  {
    var init, last := times[..|times| - 1], times[|times| - 1];
    assert last >= times[i];
    if i < |init| {
      assert Ordered(init) && init[i] == times[i];
      RecentSuffix(init, i, now);
    }
  }

  /** The indices of the times younger than a day. */
  function Young(times: seq<int>, now: int): set<int> {
    set i | 0 <= i < |times| && now - times[i] < 86_400_000
  }

  lemma YoungSnoc(times: seq<int>, t: int, now: int)
    ensures |Young(times + [t], now)| == |Young(times, now)| + if now - t < 86_400_000 then 1 else 0
  {
    assert Young(times + [t], now) == Young(times, now) + if now - t < 86_400_000 then {|times|} else {};
  }

  /** As many times count as are younger than 24 hours. */
  lemma {:induction false} RecentCounts(times: seq<int>, now: int)
    ensures |Recent(times, now)| == |Young(times, now)|
  {
    if times == [] {
      assert Young(times, now) == {};
    } else {
      var init, last := times[..|times| - 1], times[|times| - 1];
      RecentCounts(init, now);
      assert times == init + [last];
      hide Young;
      YoungSnoc(init, last, now);
    }
  }

  /** They are the times younger than 24 hours, each as often as it occurs. */
  lemma {:induction false} RecentKeeps(times: seq<int>, now: int, t: int)
    ensures multiset(Recent(times, now))[t] == if now - t < 86_400_000 then multiset(times)[t] else 0
  {
    if times != [] {
      var init, last := times[..|times| - 1], times[|times| - 1];
      RecentKeeps(init, now, t);
      assert times == init + [last];
    }
  }
}
