/**
 * Brute-force lockout: failed sign-ins counted per (username, address), per
 * username and per address over a sliding window.
 */
module Lockout {
  import opened Arithmetic
  import opened Window

  const LOCKOUT_WINDOW: nat := 900
  const ATTEMPT_RETENTION: nat := 86400

  /** A recorded sign-in attempt; the user is the name with its case folded. */
  datatype Attempt = Attempt(user: string, ip: string, ts: int, ok: bool)

  datatype Scope = Pair(user: string, ip: string) | User(user: string) | Ip(ip: string)

  function Threshold(s: Scope): nat {
    match s
    case Pair(_, _) => 5
    case User(_) => 20
    case Ip(_) => 50
  }

  predicate Hits(s: Scope, a: Attempt) {
    !a.ok &&
    match s
    case Pair(user, ip) => a.user == user && a.ip == ip
    case User(user) => a.user == user
    case Ip(ip) => a.ip == ip
  }

  /** When the failures of a scope happened. */
  function Times(attempts: seq<Attempt>, s: Scope): seq<int> {
    if |attempts| == 0 then []
    else
      var a := attempts[|attempts| - 1];
      Times(attempts[..|attempts| - 1], s) + if Hits(s, a) then [a.ts] else []
  }

  /** COUNT(*) of the failures of a scope at or after a time. */
  function Failures(attempts: seq<Attempt>, s: Scope, since: int): nat {
    Count(Times(attempts, s), since)
  }

  /** The tiers that a sign-in of this user at this address is checked against. */
  predicate Concerns(s: Scope, user: string, ip: string) {
    s == Pair(user, ip) || s == User(user) || s == Ip(ip)
  }

  /** Until when one tier locks, or 0. */
  function TierUntil(attempts: seq<Attempt>, s: Scope, now: int): int {
    var since := now - LOCKOUT_WINDOW;
    var oldest := Oldest(Times(attempts, s), since);
    if Failures(attempts, s, since) >= Threshold(s) && oldest != 0 then oldest + LOCKOUT_WINDOW
    else 0
  }

  /** 0, or the second the lockout of this user at this address ends. */
  function LockedUntil(attempts: seq<Attempt>, user: string, ip: string, now: int): int {
    Max(Max(Max(0, TierUntil(attempts, Pair(user, ip), now)), TierUntil(attempts, User(user), now)),
        TierUntil(attempts, Ip(ip), now))
  }

  /** The loop over the three tiers. */
  method CheckLockout(attempts: seq<Attempt>, user: string, ip: string, now: int) returns (until: int)
    ensures until == LockedUntil(attempts, user, ip, now)
  {
    until := 0;
    var tiers := [Pair(user, ip), User(user), Ip(ip)];
    hide Failures, Oldest, Threshold, Times;
    for i := 0 to 3
      invariant i == 0 ==> until == 0
      invariant i == 1 ==> until == Max(0, TierUntil(attempts, tiers[0], now))
      invariant i == 2 ==> until == Max(Max(0, TierUntil(attempts, tiers[0], now)), TierUntil(attempts, tiers[1], now))
      invariant i == 3 ==> until == LockedUntil(attempts, user, ip, now)
    {
      var since := now - LOCKOUT_WINDOW;
      var count, oldest := Failures(attempts, tiers[i], since), Oldest(Times(attempts, tiers[i]), since);
      if count >= Threshold(tiers[i]) && oldest != 0 && until < oldest + LOCKOUT_WINDOW {
        until := oldest + LOCKOUT_WINDOW;
      }
    }
  }

  /** Deletes a user's failures. */
  function Cleared(attempts: seq<Attempt>, user: string): seq<Attempt> {
    if |attempts| == 0 then []
    else
      var a := attempts[|attempts| - 1];
      Cleared(attempts[..|attempts| - 1], user) + if a.user == user && !a.ok then [] else [a]
  }

  function Retained(attempts: seq<Attempt>, cutoff: int): seq<Attempt> {
    if |attempts| == 0 then []
    else
      var a := attempts[|attempts| - 1];
      Retained(attempts[..|attempts| - 1], cutoff) + if a.ts < cutoff then [] else [a]
  }

  lemma {:induction false} FailuresCounted(attempts: seq<Attempt>, s: Scope, since: int, p: Attempt -> bool)
    requires forall a :: p(a) <==> Hits(s, a) && a.ts >= since
    ensures CountIf(attempts, p) == Failures(attempts, s, since)
  {
    if |attempts| > 0 {
      hide Hits;
      var rest, a := attempts[..|attempts| - 1], attempts[|attempts| - 1];
      FailuresCounted(rest, s, since, p);
      assert attempts == rest + [a];
      hide Failures;
      PushFailures(rest, a, s, since);
    }
  }

  /**
   * A caller is locked out exactly when the last 15 minutes hold 5 failures of that name at that
   * address, 20 of that name, or 50 at that address.
   */
  lemma LockedExactly(attempts: seq<Attempt>, user: string, ip: string, now: int)
    requires Positive(attempts)
    ensures LockedUntil(attempts, user, ip, now) != 0 <==>
      CountIf(attempts, (a: Attempt) => !a.ok && a.user == user && a.ip == ip && a.ts >= now - 900) >= 5 ||
      CountIf(attempts, (a: Attempt) => !a.ok && a.user == user && a.ts >= now - 900) >= 20 ||
      CountIf(attempts, (a: Attempt) => !a.ok && a.ip == ip && a.ts >= now - 900) >= 50
  {
    var pair := (a: Attempt) => !a.ok && a.user == user && a.ip == ip && a.ts >= now - 900;
    FailuresCounted(attempts, Pair(user, ip), now - 900, pair);
    FailuresCounted(attempts, User(user), now - 900, (a: Attempt) => !a.ok && a.user == user && a.ts >= now - 900);
    FailuresCounted(attempts, Ip(ip), now - 900, (a: Attempt) => !a.ok && a.ip == ip && a.ts >= now - 900);
    hide CountIf, Failures;
    if LockedUntil(attempts, user, ip, now) == 0 {
      UnlockedBelow(attempts, user, ip, now, Pair(user, ip));
      UnlockedBelow(attempts, user, ip, now, User(user));
      UnlockedBelow(attempts, user, ip, now, Ip(ip));
    }
  }

  /** Are exactly the failures of the user gone? */
  ghost predicate FailuresGone(before: seq<Attempt>, after: seq<Attempt>, user: string) {
    forall a :: multiset(after)[a] == if a.user == user && !a.ok then 0 else multiset(before)[a]
  }

  /** Are exactly the rows from before the cutoff gone? */
  ghost predicate OlderGone(before: seq<Attempt>, after: seq<Attempt>, cutoff: int) {
    forall a :: multiset(after)[a] == if a.ts < cutoff then 0 else multiset(before)[a]
  }

  /** Clearing takes a user's failures out and leaves every other row. */
  lemma {:induction false} ClearedExactly(attempts: seq<Attempt>, user: string)
    ensures FailuresGone(attempts, Cleared(attempts, user), user)
  {
    if |attempts| > 0 {
      var rest, last := attempts[..|attempts| - 1], attempts[|attempts| - 1];
      ClearedExactly(rest, user);
      assert attempts == rest + [last];
    }
  }

  /** Housekeeping takes the old rows out and leaves every other one. */
  lemma {:induction false} RetainedExactly(attempts: seq<Attempt>, cutoff: int)
    ensures OlderGone(attempts, Retained(attempts, cutoff), cutoff)
  {
    if |attempts| > 0 {
      var rest, last := attempts[..|attempts| - 1], attempts[|attempts| - 1];
      RetainedExactly(rest, cutoff);
      assert attempts == rest + [last];
    }
  }

  // ---- runs -------------------------------------------------------------------------------

  /**
   * What a call does to the table: a checked attempt (clearing when it succeeds for good),
   * an explicit clearing, or housekeeping.
   */
  datatype Call =
    | Try(user: string, ip: string, now: int, ok: bool, clears: bool, logged: bool)
    | Clear(user: string)
    | Sweep(now: int)

  /** A checked attempt leaves no trace while the caller is locked out. */
  function After(attempts: seq<Attempt>, c: Call): seq<Attempt> {
    match c
    case Try(user, ip, now, ok, clears, logged) =>
      if LockedUntil(attempts, user, ip, now) != 0 then attempts
      else
        var a := if logged || !ok then attempts + [Attempt(user, ip, now, ok)] else attempts;
        if ok && clears then Cleared(a, user) else a
    case Clear(user) => Cleared(attempts, user)
    case Sweep(now) => Retained(attempts, now - ATTEMPT_RETENTION)
  }

  /**
   * Said of the rows: a locked caller leaves no trace; a failure is added; a success is added if
   * it is to be logged, and takes the user's failures out if it is to clear them.
   */
  lemma TryExactly(attempts: seq<Attempt>, user: string, ip: string, now: int, ok: bool, clears: bool, logged: bool)
    ensures var after := After(attempts, Try(user, ip, now, ok, clears, logged));
      var row := if logged || !ok then [Attempt(user, ip, now, ok)] else [];
      if LockedUntil(attempts, user, ip, now) != 0 then after == attempts
      else if ok && clears then FailuresGone(attempts + row, after, user)
      else after == attempts + row
  {
    hide LockedUntil, Cleared, FailuresGone;
    ClearedExactly(attempts, user);
    ClearedExactly(attempts + [Attempt(user, ip, now, ok)], user);
    assert attempts + [] == attempts;
  }

  function AfterAll(calls: seq<Call>): seq<Attempt> {
    if |calls| == 0 then [] else After(AfterAll(calls[..|calls| - 1]), calls[|calls| - 1])
  }

  /** The clock is positive. */
  ghost predicate Timed(calls: seq<Call>) {
    forall i :: 0 <= i < |calls| && calls[i].Try? ==> calls[i].now > 0
  }

  lemma PushCall(calls: seq<Call>, c: Call)
    requires Timed(calls) && (c.Try? ==> c.now > 0)
    ensures AfterAll(calls + [c]) == After(AfterAll(calls), c) && Timed(calls + [c])
  {
    assert (calls + [c])[..|calls|] == calls;
  }

  /** Failures of a scope in the inclusive window that starts at lo. */
  function InWindow(attempts: seq<Attempt>, s: Scope, lo: int): int {
    Within(Times(attempts, s), lo, LOCKOUT_WINDOW)
  }

  ghost predicate Positive(attempts: seq<Attempt>) {
    forall a :: a in attempts ==> a.ts > 0
  }

  ghost predicate Limited(attempts: seq<Attempt>) {
    Positive(attempts) && forall s, lo :: InWindow(attempts, s, lo) <= Threshold(s)
  }

  lemma TimesPush(attempts: seq<Attempt>, a: Attempt, s: Scope)
    ensures Times(attempts + [a], s) == if Hits(s, a) then Times(attempts, s) + [a.ts] else Times(attempts, s)
  {
    assert (attempts + [a])[..|attempts|] == attempts;
  }

  lemma {:induction false} TimesMembers(attempts: seq<Attempt>, s: Scope, t: int)
    requires t in Times(attempts, s)
    ensures exists a :: a in attempts && a.ts == t && Hits(s, a)
  {
    var rest, a := attempts[..|attempts| - 1], attempts[|attempts| - 1];
    assert attempts == rest + [a];
    if t in Times(rest, s) {
      TimesMembers(rest, s, t);
    }
  }

  /** An unlocked caller is below every threshold. */
  lemma UnlockedBelow(attempts: seq<Attempt>, user: string, ip: string, now: int, s: Scope)
    requires LockedUntil(attempts, user, ip, now) == 0 && Positive(attempts) && Concerns(s, user, ip)
    ensures Failures(attempts, s, now - LOCKOUT_WINDOW) < Threshold(s)
  {
    hide Count, Oldest, Times;
    var since := now - LOCKOUT_WINDOW;
    if Failures(attempts, s, since) >= Threshold(s) {
      OldestBounds(Times(attempts, s), since);
      TimesMembers(attempts, s, Oldest(Times(attempts, s), since));
    }
  }

  /** Recording a failure of an unlocked caller keeps every window within its threshold. */
  lemma AttemptLimited(attempts: seq<Attempt>, user: string, ip: string, now: int, ok: bool)
    requires Limited(attempts) && now > 0 && LockedUntil(attempts, user, ip, now) == 0
    ensures Limited(attempts + [Attempt(user, ip, now, ok)])
  {
    hide LockedUntil, Count, Times, Within;
    var a := Attempt(user, ip, now, ok);
    forall s, lo
      ensures InWindow(attempts + [a], s, lo) <= Threshold(s)
    {
      assert InWindow(attempts, s, lo) <= Threshold(s);
      TimesPush(attempts, a, s);
      if Hits(s, a) {
        UnlockedBelow(attempts, user, ip, now, s);
        PushBounded(Times(attempts, s), now, lo, LOCKOUT_WINDOW, Threshold(s));
      }
    }
  }

  /** Rows removed from the table cannot break a limit. */
  ghost predicate Thinner(a: seq<Attempt>, b: seq<Attempt>) {
    (forall x :: x in a ==> x in b) && forall s, lo :: InWindow(a, s, lo) <= InWindow(b, s, lo)
  }

  lemma {:induction false} ClearedThinner(attempts: seq<Attempt>, user: string)
    ensures Thinner(Cleared(attempts, user), attempts)
  {
    if |attempts| > 0 {
      var a, rest := attempts[|attempts| - 1], attempts[..|attempts| - 1];
      ClearedThinner(rest, user);
      assert attempts == rest + [a];
      KeepThinner(Cleared(rest, user), rest, a, !(a.user == user && !a.ok));
    }
  }

  lemma {:induction false} RetainedThinner(attempts: seq<Attempt>, cutoff: int)
    ensures Thinner(Retained(attempts, cutoff), attempts)
  {
    if |attempts| > 0 {
      var a, rest := attempts[|attempts| - 1], attempts[..|attempts| - 1];
      RetainedThinner(rest, cutoff);
      assert attempts == rest + [a];
      KeepThinner(Retained(rest, cutoff), rest, a, a.ts >= cutoff);
    }
  }

  lemma KeepThinner(kept: seq<Attempt>, rest: seq<Attempt>, a: Attempt, keep: bool)
    requires Thinner(kept, rest)
    ensures Thinner(kept + (if keep then [a] else []), rest + [a])
  {
    hide Times, Within;
    assert kept + [] == kept;
    forall s, lo
      ensures InWindow(kept + (if keep then [a] else []), s, lo) <= InWindow(rest + [a], s, lo)
    {
      assert InWindow(kept, s, lo) <= InWindow(rest, s, lo);
      TimesPush(kept, a, s);
      TimesPush(rest, a, s);
      WithinPush(Times(kept, s), a.ts, lo, LOCKOUT_WINDOW);
      WithinPush(Times(rest, s), a.ts, lo, LOCKOUT_WINDOW);
    }
  }

  /**
   * Over every run of calls, no inclusive 15-minute window holds more than 5 failures of a
   * (username, address), 20 of a username or 50 of an address.
   */
  lemma {:induction false} RunLimited(calls: seq<Call>)
    requires Timed(calls)
    ensures Limited(AfterAll(calls))
  {
    if |calls| > 0 {
      var before, c := AfterAll(calls[..|calls| - 1]), calls[|calls| - 1];
      RunLimited(calls[..|calls| - 1]);
      hide InWindow, LockedUntil;
      match c
      case Try(user, ip, now, ok, clears, logged) =>
        if LockedUntil(before, user, ip, now) == 0 {
          AttemptLimited(before, user, ip, now, ok);
          ClearedThinner(before + [Attempt(user, ip, now, ok)], user);
          ClearedThinner(before, user);
        }
      case Clear(user) => ClearedThinner(before, user);
      case Sweep(now) => RetainedThinner(before, now - ATTEMPT_RETENTION);
    }
  }

  lemma TierLimits(calls: seq<Call>, user: string, ip: string, lo: int)
    requires Timed(calls)
    ensures InWindow(AfterAll(calls), Pair(user, ip), lo) <= 5
    ensures InWindow(AfterAll(calls), User(user), lo) <= 20
    ensures InWindow(AfterAll(calls), Ip(ip), lo) <= 50
  {
    RunLimited(calls);
    hide InWindow, AfterAll;
  }

  // ---- a lockout lasts ------------------------------------------------------------------------

  /** Does the table hold a failure of this user, at or after a time, that tier s counts? */
  ghost predicate Touches(attempts: seq<Attempt>, user: string, s: Scope, since: int) {
    exists i :: 0 <= i < |attempts| && attempts[i].user == user && Hits(s, attempts[i]) && attempts[i].ts >= since
  }

  /**
   * Does the call leave the failures alone that tier s counts at time u?  A refused attempt
   * does, whatever its password, and so does clearing a user none of whose failures s counts.
   */
  ghost predicate Harmless(attempts: seq<Attempt>, c: Call, s: Scope, u: int) {
    match c
    case Try(user, ip, now, ok, clears, _) =>
      (Concerns(s, user, ip) && now <= u) || LockedUntil(attempts, user, ip, now) != 0 || !(ok && clears) ||
      !Touches(attempts, user, s, u - LOCKOUT_WINDOW)
    case Clear(user) => !Touches(attempts, user, s, u - LOCKOUT_WINDOW)
    case Sweep(now) => now - ATTEMPT_RETENTION <= u - LOCKOUT_WINDOW
  }

  lemma {:induction false} ClearedFailures(attempts: seq<Attempt>, user: string, s: Scope, since: int)
    requires !Touches(attempts, user, s, since)
    ensures Failures(Cleared(attempts, user), s, since) == Failures(attempts, s, since)
  {
    if |attempts| > 0 {
      hide Hits, Failures, Touches;
      var a, rest := attempts[|attempts| - 1], attempts[..|attempts| - 1];
      UntouchedParts(attempts, user, s, since);
      ClearedFailures(rest, user, s, since);
      var kept := Cleared(rest, user);
      assert attempts == rest + [a] && kept + [] == kept;
      PushFailures(rest, a, s, since);
      PushFailures(kept, a, s, since);
    }
  }

  lemma UntouchedParts(attempts: seq<Attempt>, user: string, s: Scope, since: int)
    requires |attempts| > 0 && !Touches(attempts, user, s, since)
    ensures !Touches(attempts[..|attempts| - 1], user, s, since)
    ensures var a := attempts[|attempts| - 1]; !(a.user == user && Hits(s, a) && a.ts >= since)
  {
    hide Hits;
  }

  lemma PushFailures(attempts: seq<Attempt>, a: Attempt, s: Scope, since: int)
    ensures Failures(attempts + [a], s, since) ==
      Failures(attempts, s, since) + if Hits(s, a) && a.ts >= since then 1 else 0
    ensures a.ok ==> !Hits(s, a)
  {
    TimesPush(attempts, a, s);
    CountPush(Times(attempts, s), a.ts, since);
  }

  /** The failures that housekeeping keeps are the recent ones. */
  lemma {:induction false} RetainedTimes(attempts: seq<Attempt>, cutoff: int, s: Scope)
    ensures Times(Retained(attempts, cutoff), s) == From(Times(attempts, s), cutoff)
  {
    if |attempts| > 0 {
      var a, rest := attempts[|attempts| - 1], attempts[..|attempts| - 1];
      RetainedTimes(rest, cutoff, s);
      hide Times, From, Retained;
      RetainedTimesPush(rest, a, cutoff, s);
      assert attempts == rest + [a];
    }
  }

  lemma RetainedTimesPush(rest: seq<Attempt>, a: Attempt, cutoff: int, s: Scope)
    requires Times(Retained(rest, cutoff), s) == From(Times(rest, s), cutoff)
    ensures Times(Retained(rest + [a], cutoff), s) == From(Times(rest + [a], s), cutoff)
  {
    hide Times, From, Hits, Retained;
    TimesPush(rest, a, s);
    FromLast(Times(rest, s), a.ts, cutoff);
    RetainedLast(rest, a, cutoff);
    TimesPush(Retained(rest, cutoff), a, s);
  }

  lemma RetainedLast(rest: seq<Attempt>, a: Attempt, cutoff: int)
    ensures var kept := Retained(rest, cutoff);
      Retained(rest + [a], cutoff) == if a.ts < cutoff then kept else kept + [a]
  {
    assert (rest + [a])[..|rest|] == rest;
  }

  /** Does tier s lock at time u, and is the clock of all attempts positive? */
  ghost predicate Locks(attempts: seq<Attempt>, s: Scope, u: int) {
    Failures(attempts, s, u - LOCKOUT_WINDOW) >= Threshold(s) && Positive(attempts)
  }

  lemma StillLocked(attempts: seq<Attempt>, user: string, ip: string, now: int, s: Scope, u: int)
    requires Concerns(s, user, ip) && Locks(attempts, s, u) && now <= u
    ensures LockedUntil(attempts, user, ip, now) != 0
  {
    CountMonotone(Times(attempts, s), now - LOCKOUT_WINDOW, u - LOCKOUT_WINDOW);
    hide LockedUntil, Concerns;
    if LockedUntil(attempts, user, ip, now) == 0 {
      UnlockedBelow(attempts, user, ip, now, s);
    }
  }

  lemma HarmlessKeeps(attempts: seq<Attempt>, c: Call, s: Scope, u: int)
    requires Harmless(attempts, c, s, u) && Locks(attempts, s, u) && (c.Try? ==> c.now > 0)
    ensures Locks(After(attempts, c), s, u)
  {
    hide Count, Times, LockedUntil, Cleared, Retained, Touches, Threshold, Hits;
    match c
    case Try(user, ip, now, ok, clears, logged) =>
      if Concerns(s, user, ip) && now <= u {
        StillLocked(attempts, user, ip, now, s, u);
      } else if LockedUntil(attempts, user, ip, now) == 0 {
        TryKeeps(attempts, user, ip, now, ok, s, u);
      }
    case Clear(user) =>
      ClearedThinner(attempts, user);
      ClearedFailures(attempts, user, s, u - LOCKOUT_WINDOW);
    case Sweep(now) =>
      RetainedThinner(attempts, now - ATTEMPT_RETENTION);
      RetainedTimes(attempts, now - ATTEMPT_RETENTION, s);
      FromCount(Times(attempts, s), now - ATTEMPT_RETENTION, u - LOCKOUT_WINDOW);
  }

  lemma TryKeeps(attempts: seq<Attempt>, user: string, ip: string, now: int, ok: bool, s: Scope, u: int)
    requires Locks(attempts, s, u) && now > 0
    ensures var b := attempts + [Attempt(user, ip, now, ok)];
      Locks(b, s, u) &&
      (ok && !Touches(attempts, user, s, u - LOCKOUT_WINDOW) ==>
        Locks(Cleared(b, user), s, u) && Locks(Cleared(attempts, user), s, u))
  {
    hide Failures, Cleared, Threshold, Hits;
    var a, since := Attempt(user, ip, now, ok), u - LOCKOUT_WINDOW;
    var b := attempts + [a];
    PushFailures(attempts, a, s, since);
    if ok && !Touches(attempts, user, s, since) {
      assert !Touches(b, user, s, since) by {
        assert forall i :: 0 <= i < |attempts| ==> b[i] == attempts[i];
      }
      ClearedThinner(attempts, user);
      ClearedThinner(b, user);
      ClearedFailures(attempts, user, s, since);
      ClearedFailures(b, user, s, since);
    }
  }

  /** Is every call of a continuation harmless on the table it meets? */
  ghost predicate HarmlessAll(calls: seq<Call>, more: seq<Call>, s: Scope, u: int) {
    forall i :: 0 <= i < |more| ==> Harmless(AfterAll(calls + more[..i]), more[i], s, u)
  }

  lemma {:induction false} HarmlessRun(calls: seq<Call>, more: seq<Call>, s: Scope, u: int)
    requires Timed(more) && Locks(AfterAll(calls), s, u) && HarmlessAll(calls, more, s, u)
    ensures Locks(AfterAll(calls + more), s, u)
  {
    if |more| == 0 {
      assert calls + more == calls;
    } else {
      hide HarmlessAll, AfterAll, Harmless, After, Locks;
      var n := |more| - 1;
      HarmlessParts(calls, more, s, u);
      HarmlessRun(calls, more[..n], s, u);
      HarmlessKeeps(AfterAll(calls + more[..n]), more[n], s, u);
      LastCall(calls, more);
    }
  }

  lemma HarmlessParts(calls: seq<Call>, more: seq<Call>, s: Scope, u: int)
    requires |more| > 0 && HarmlessAll(calls, more, s, u)
    ensures var n := |more| - 1;
      HarmlessAll(calls, more[..n], s, u) && Harmless(AfterAll(calls + more[..n]), more[n], s, u)
  {
    hide AfterAll, Harmless;
    var n := |more| - 1;
    forall i | 0 <= i < n
      ensures Harmless(AfterAll(calls + more[..n][..i]), more[..n][i], s, u)
    {
      assert more[..n][..i] == more[..i];
    }
  }

  lemma LastCall(calls: seq<Call>, more: seq<Call>)
    requires |more| > 0
    ensures AfterAll(calls + more) == After(AfterAll(calls + more[..|more| - 1]), more[|more| - 1])
  {
    hide After;
    assert (calls + more)[..|calls| + |more| - 1] == calls + more[..|more| - 1];
  }

  /** The tier that names the end of a lockout reaches its threshold from that end minus the window on. */
  lemma LockWitness(attempts: seq<Attempt>, user: string, ip: string, now: int)
    requires LockedUntil(attempts, user, ip, now) != 0 && Positive(attempts)
    ensures exists s :: Concerns(s, user, ip) && Locks(attempts, s, LockedUntil(attempts, user, ip, now))
  {
    hide Count, Oldest, Times;
    var u := LockedUntil(attempts, user, ip, now);
    var s := if TierUntil(attempts, Pair(user, ip), now) == u then Pair(user, ip)
             else if TierUntil(attempts, User(user), now) == u then User(user) else Ip(ip);
    assert TierUntil(attempts, s, now) == u;
    OldestBounds(Times(attempts, s), now - LOCKOUT_WINDOW);
    assert Locks(attempts, s, u);
  }

  /**
   * A caller told "locked until u" is locked by some tier, and in every continuation everyone
   * that tier is about is refused at every moment up to u, whatever is tried meanwhile, unless
   * a failure is cleared that the tier counts.
   */
  lemma LockPersists(calls: seq<Call>, user: string, ip: string, now: int)
    requires Timed(calls) && LockedUntil(AfterAll(calls), user, ip, now) != 0
    ensures var u := LockedUntil(AfterAll(calls), user, ip, now);
      exists s :: Concerns(s, user, ip) && Locks(AfterAll(calls), s, u) && Refuses(calls, s, u)
  {
    var a := AfterAll(calls);
    var u := LockedUntil(a, user, ip, now);
    RunLimited(calls);
    LockWitness(a, user, ip, now);
    hide LockedUntil, Locks, AfterAll, Concerns;
    var s :| Concerns(s, user, ip) && Locks(a, s, u);
    TierRefuses(calls, s, u);
  }

  /** A failure of the tier that names the end, exactly the window before it. */
  lemma EndWitness(attempts: seq<Attempt>, user: string, ip: string, now: int)
    requires LockedUntil(attempts, user, ip, now) != 0 && Positive(attempts)
    ensures var u := LockedUntil(attempts, user, ip, now);
      u >= now && exists a :: a in attempts && !a.ok && (a.user == user || a.ip == ip) && a.ts == u - 900
  {
    hide Count, Oldest, Times;
    var u := LockedUntil(attempts, user, ip, now);
    var s := if TierUntil(attempts, Pair(user, ip), now) == u then Pair(user, ip)
             else if TierUntil(attempts, User(user), now) == u then User(user) else Ip(ip);
    assert TierUntil(attempts, s, now) == u;
    OldestBounds(Times(attempts, s), now - LOCKOUT_WINDOW);
    TimesMembers(attempts, s, u - LOCKOUT_WINDOW);
  }

  /** A tier that still locks behind the end would have overfilled the window that ends now. */
  lemma TierOpens(attempts: seq<Attempt>, s: Scope, now: int, u: int)
    requires Limited(attempts) && (forall a :: a in attempts ==> a.ts <= now)
    requires now <= u && TierUntil(attempts, s, now) <= u
    ensures TierUntil(attempts, s, u + 1) == 0
  {
    var times, since := Times(attempts, s), now - LOCKOUT_WINDOW;
    assert Threshold(s) > 0;
    hide Times, Count, Oldest, Threshold;
    if Count(times, u + 1 - LOCKOUT_WINDOW) >= Threshold(s) {
      CountMonotone(times, since, u + 1 - LOCKOUT_WINDOW);
      OldestBounds(times, since);
      TimesMembers(attempts, s, Oldest(times, since));
      NoneLater(attempts, s, now);
      assert InWindow(attempts, s, since) <= Threshold(s);
      OldestLeaves(times, since, u + 1 - LOCKOUT_WINDOW);
    }
  }

  lemma {:induction false} NoneLater(attempts: seq<Attempt>, s: Scope, now: int)
    requires forall a :: a in attempts ==> a.ts <= now
    ensures Count(Times(attempts, s), now + 1) == 0
  {
    if |attempts| > 0 {
      var a, rest := attempts[|attempts| - 1], attempts[..|attempts| - 1];
      assert a in attempts && forall b :: b in rest ==> b in attempts;
      NoneLater(rest, s, now);
      assert attempts == rest + [a];
      TimesPush(rest, a, s);
      CountPush(Times(rest, s), a.ts, now + 1);
    }
  }

  /**
   * On the table of any run, a lockout ends when it says: not before now, at most 15 minutes
   * ahead, 15 minutes after a stored failure; and when nothing is recorded meanwhile the caller
   * is let through one second later.
   */
  lemma LockEnds(calls: seq<Call>, user: string, ip: string, now: int)
    requires Timed(calls) && (forall a :: a in AfterAll(calls) ==> a.ts <= now)
    requires LockedUntil(AfterAll(calls), user, ip, now) != 0
    ensures var u := LockedUntil(AfterAll(calls), user, ip, now);
      now <= u <= now + 900 && LockedUntil(AfterAll(calls), user, ip, u + 1) == 0 &&
      exists a :: a in AfterAll(calls) && !a.ok && (a.user == user || a.ip == ip) && a.ts == u - 900
  {
    var attempts := AfterAll(calls);
    var u := LockedUntil(attempts, user, ip, now);
    RunLimited(calls);
    hide AfterAll, InWindow, TierUntil;
    EndWitness(attempts, user, ip, now);
    TierOpens(attempts, Pair(user, ip), now, u);
    TierOpens(attempts, User(user), now, u);
    TierOpens(attempts, Ip(ip), now, u);
  }

  /** After every harmless continuation of the calls, tier s still refuses its callers up to u. */
  ghost predicate Refuses(calls: seq<Call>, s: Scope, u: int) {
    forall more, user, ip, later ::
      Timed(more) && HarmlessAll(calls, more, s, u) && Concerns(s, user, ip) && later <= u ==>
      LockedUntil(AfterAll(calls + more), user, ip, later) != 0
  }

  lemma TierRefuses(calls: seq<Call>, s: Scope, u: int)
    requires Locks(AfterAll(calls), s, u)
    ensures Refuses(calls, s, u)
  {
    hide Locks, LockedUntil, AfterAll, Concerns, HarmlessAll, Timed;
    forall more, user, ip, later |
      Timed(more) && HarmlessAll(calls, more, s, u) && Concerns(s, user, ip) && later <= u
      ensures LockedUntil(AfterAll(calls + more), user, ip, later) != 0
    {
      HarmlessRun(calls, more, s, u);
      StillLocked(AfterAll(calls + more), user, ip, later, s, u);
    }
  }

  /** So a sign-in of anybody without a failure at a locked address does not open that address. */
  lemma StrangerHarmless(attempts: seq<Attempt>, c: Call, ip: string, u: int)
    requires c.Try? || c.Clear?
    requires forall a :: a in attempts && a.ip == ip && !a.ok ==> a.user != c.user
    ensures Harmless(attempts, c, Ip(ip), u)
  {
    forall i | 0 <= i < |attempts| && Hits(Ip(ip), attempts[i])
      ensures attempts[i].user != c.user
    {
      assert attempts[i] in attempts;
    }
    hide LockedUntil, Concerns;
  }
}
