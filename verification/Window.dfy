/**
 * Events counted over a sliding window: how many lie in it, when the oldest of
 * them leaves it, and that a check before each event bounds every window.
 */
module Window {

  /** Number of rows that a condition selects. */
  function CountIf<T>(rows: seq<T>, p: T -> bool): nat {
    if |rows| == 0 then 0
    else CountIf(rows[..|rows| - 1], p) + if p(rows[|rows| - 1]) then 1 else 0
  }

  /** COUNT(*) of the events at or after a time. */
  function Count(times: seq<int>, since: int): nat {
    if |times| == 0 then 0
    else Count(times[..|times| - 1], since) + if times[|times| - 1] >= since then 1 else 0
  }

  /** MIN(ts) of the same events; 0 when there are none. */
  function Oldest(times: seq<int>, since: int): int {
    if |times| == 0 then 0
    else
      var t, rest := times[|times| - 1], times[..|times| - 1];
      if t >= since && (Count(rest, since) == 0 || t < Oldest(rest, since)) then t else Oldest(rest, since)
  }

  /** The events at or after a cutoff. */
  function From(times: seq<int>, cutoff: int): seq<int> {
    if |times| == 0 then []
    else From(times[..|times| - 1], cutoff) + if times[|times| - 1] < cutoff then [] else [times[|times| - 1]]
  }

  /** The events in the inclusive window that starts at lo. */
  function Within(times: seq<int>, lo: int, width: nat): int {
    Count(times, lo) - Count(times, lo + width + 1)
  }

  lemma CountPush(times: seq<int>, t: int, since: int)
    ensures Count(times + [t], since) == Count(times, since) + if t >= since then 1 else 0
  {
    assert (times + [t])[..|times|] == times;
  }

  lemma {:induction false} CountMonotone(times: seq<int>, lo: int, hi: int)
    requires lo <= hi
    ensures Count(times, hi) <= Count(times, lo)
  {
    if |times| > 0 {
      CountMonotone(times[..|times| - 1], lo, hi);
    }
  }

  /** The oldest event of a window is one of its events, and none lies before it. */
  lemma {:induction false} OldestBounds(times: seq<int>, since: int)
    requires Count(times, since) > 0
    ensures Oldest(times, since) >= since && Oldest(times, since) in times
    ensures Count(times, Oldest(times, since)) == Count(times, since)
  {
    var t, rest := times[|times| - 1], times[..|times| - 1];
    assert times == rest + [t];
    if Count(rest, since) > 0 {
      OldestBounds(rest, since);
      CountMonotone(rest, since, Oldest(times, since));
      if Oldest(times, since) < Oldest(rest, since) {
        CountMonotone(rest, Oldest(times, since), Oldest(rest, since));
      }
    } else {
      CountMonotone(rest, since, t);
    }
  }

  /** Later windows that start behind the oldest event do not hold it. */
  lemma OldestLeaves(times: seq<int>, since: int, later: int)
    requires Count(times, since) > 0 && Oldest(times, since) < later
    ensures Count(times, later) < Count(times, since)
  {
    OldestBounds(times, since);
    MemberLeaves(times, Oldest(times, since), later);
  }

  /** When nothing is later than now, a full window is no longer full just after its oldest event has left it. */
  lemma WindowOpens(times: seq<int>, width: nat, max: nat, now: int)
    requires max > 0 && Count(times, now - width) >= max && Within(times, now - width, width) <= max
    requires Count(times, now + 1) == 0
    ensures Count(times, Oldest(times, now - width) + 1) < max
  {
    OldestLeaves(times, now - width, Oldest(times, now - width) + 1);
  }

  lemma {:induction false} MemberLeaves(times: seq<int>, t: int, later: int)
    requires t in times && t < later
    ensures Count(times, later) < Count(times, t)
  {
    var last, rest := times[|times| - 1], times[..|times| - 1];
    assert times == rest + [last];
    if t in rest {
      MemberLeaves(rest, t, later);
    } else {
      CountMonotone(rest, t, later);
    }
  }

  /** Forgetting events before the window changes nothing in it. */
  lemma {:induction false} FromCount(times: seq<int>, cutoff: int, since: int)
    requires cutoff <= since
    ensures Count(From(times, cutoff), since) == Count(times, since)
  {
    if |times| > 0 {
      var t, rest := times[|times| - 1], times[..|times| - 1];
      FromCount(rest, cutoff, since);
      hide From, Count;
      FromCountPush(rest, t, cutoff, since);
      assert rest + [t] == times;
    }
  }

  lemma FromCountPush(rest: seq<int>, t: int, cutoff: int, since: int)
    requires cutoff <= since && Count(From(rest, cutoff), since) == Count(rest, since)
    ensures Count(From(rest + [t], cutoff), since) == Count(rest + [t], since)
  {
    hide From, Count;
    FromLast(rest, t, cutoff);
    CountPush(rest, t, since);
    CountPush(From(rest, cutoff), t, since);
  }

  lemma FromLast(times: seq<int>, t: int, cutoff: int)
    ensures From(times + [t], cutoff) == if t < cutoff then From(times, cutoff) else From(times, cutoff) + [t]
  {
    assert (times + [t])[..|times|] == times;
  }

  lemma WithinPush(times: seq<int>, t: int, lo: int, width: nat)
    ensures Within(times + [t], lo, width) == Within(times, lo, width) + if lo <= t <= lo + width then 1 else 0
  {
    CountPush(times, t, lo);
    CountPush(times, t, lo + width + 1);
  }

  lemma {:induction false} FromWithin(times: seq<int>, cutoff: int, lo: int, width: nat)
    ensures Within(From(times, cutoff), lo, width) <= Within(times, lo, width)
  {
    if |times| > 0 {
      hide Within;
      var t, rest := times[|times| - 1], times[..|times| - 1];
      FromWithin(rest, cutoff, lo, width);
      FromLast(rest, t, cutoff);
      assert rest + [t] == times;
      WithinPush(rest, t, lo, width);
      WithinPush(From(rest, cutoff), t, lo, width);
    }
  }

  /**
   * An event let in because its own window was not full leaves no window overfull.  The check
   * counts everything from its window's start on, so events that arrive late with an old clock
   * are covered.
   */
  lemma PushBounded(times: seq<int>, t: int, lo: int, width: nat, max: nat)
    requires Within(times, lo, width) <= max
    requires lo <= t <= lo + width ==> Count(times, t - width) < max
    ensures Within(times + [t], lo, width) <= max
  {
    WithinPush(times, t, lo, width);
    if lo <= t <= lo + width {
      CountMonotone(times, t - width, lo);
    }
  }
}
