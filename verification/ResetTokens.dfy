/**
 * Password reset by mailed token.  A submission enters the database lock twice, with
 * the hashing of the new password in between; the two critical sections of any number
 * of submissions interleave with each other and with everything else.
 */
module ResetTokens {
  import opened Arithmetic
  import opened Window

  const RESET_TTL: nat := 1800
  const RESET_WINDOW: nat := 3600
  const RESET_ATTEMPT_MAX_PER_IP: nat := 20

  /** A reset row; the table is keyed by the hash of the token, which is unique. */
  datatype Reset = Reset(userId: int, expires: int, used: bool)

  datatype Attempt = Attempt(ip: string, ts: int)

  datatype Pc = Arrived | Hashing | Limited(retryAfter: int) | Invalid | Written

  /** One submission of a token: now is read once, before the lock is taken. */
  datatype Submission = Submission(token: string, ip: string, now: int, pc: Pc)

  /** issued and writes are kept for the proof: every token hash ever stored, and the password writes. */
  datatype State = State(users: map<int, string>, resets: map<string, Reset>, attempts: seq<Attempt>,
                         submissions: seq<Submission>, issued: set<string>, writes: seq<string>)

  datatype Step =
    | Create(userId: int, token: string, now: int)
    | Submit(token: string, ip: string, now: int)
    | FirstSection(k: nat)
    | SecondSection(k: nat, pwHash: string)
    | AddUser(userId: int, pwHash: string)
    | DeleteUser(userId: int)
    | Prune(now: int)

  /** When the stored submissions of an address happened. */
  function Times(attempts: seq<Attempt>, ip: string): seq<int> {
    if |attempts| == 0 then []
    else
      var a := attempts[|attempts| - 1];
      Times(attempts[..|attempts| - 1], ip) + if a.ip == ip then [a.ts] else []
  }

  function Recent(attempts: seq<Attempt>, cutoff: int): seq<Attempt> {
    if |attempts| == 0 then []
    else
      var a := attempts[|attempts| - 1];
      Recent(attempts[..|attempts| - 1], cutoff) + if a.ts < cutoff then [] else [a]
  }

  /** The live row of a token: unused, unexpired, and its user still exists. */
  predicate Live(s: State, token: string, now: int) {
    token in s.resets && !s.resets[token].used && s.resets[token].expires >= now && s.resets[token].userId in s.users
  }

  predicate CanStep(s: State, step: Step) {
    match step
    case Create(_, token, _) => token !in s.issued
    case Submit(_, _, _) => true
    case FirstSection(k) => k < |s.submissions| && s.submissions[k].pc == Arrived
    case SecondSection(k, _) => k < |s.submissions| && s.submissions[k].pc == Hashing
    case AddUser(userId, _) => userId !in s.users
    case DeleteUser(_) => true
    case Prune(_) => true
  }

  function Next(s: State, step: Step): State
    requires CanStep(s, step)
  {
    match step
    case Create(userId, token, now) =>
      var marked := map t | t in s.resets ::
        if s.resets[t].userId == userId then s.resets[t].(used := true) else s.resets[t];
      s.(resets := marked[token := Reset(userId, now + RESET_TTL, false)], issued := s.issued + {token})
    case Submit(token, ip, now) => s.(submissions := s.submissions + [Submission(token, ip, now, Arrived)])
    case FirstSection(k) =>
      var x := s.submissions[k];
      var times, since := Times(s.attempts, x.ip), x.now - RESET_WINDOW;
      if Count(times, since) >= RESET_ATTEMPT_MAX_PER_IP then
        var wait := Max(1, Oldest(times, since) + RESET_WINDOW - x.now);
        s.(submissions := s.submissions[k := x.(pc := Limited(wait))])
      else
        s.(attempts := s.attempts + [Attempt(x.ip, x.now)],
           submissions := s.submissions[k := x.(pc := if Live(s, x.token, x.now) then Hashing else Invalid)])
    case SecondSection(k, pwHash) =>
      var x := s.submissions[k];
      if !Live(s, x.token, x.now) then s.(submissions := s.submissions[k := x.(pc := Invalid)])
      else
        var row := s.resets[x.token];
        s.(users := s.users[row.userId := pwHash], resets := s.resets[x.token := row.(used := true)],
           submissions := s.submissions[k := x.(pc := Written)], writes := s.writes + [x.token])
    case AddUser(userId, pwHash) => s.(users := s.users[userId := pwHash])
    case DeleteUser(userId) => s.(users := s.users - {userId})
    case Prune(now) =>
      s.(resets := map t | t in s.resets && s.resets[t].expires >= now && !s.resets[t].used :: s.resets[t],
         attempts := Recent(s.attempts, now - RESET_WINDOW))
  }

  ghost predicate Initial(s: State) {
    s.resets == map[] && s.attempts == [] && s.submissions == [] && s.issued == {} && s.writes == []
  }

  ghost predicate Run(states: seq<State>, steps: seq<Step>) {
    |states| == |steps| + 1 && Initial(states[0]) &&
    forall i :: 0 <= i < |steps| ==> CanStep(states[i], steps[i]) && states[i + 1] == Next(states[i], steps[i])
  }

  // ---- tokens ---------------------------------------------------------------------------------

  ghost predicate SingleUse(s: State) {
    // every stored token was issued, and a user has at most one unused token
    (forall t :: t in s.resets ==> t in s.issued) &&
    (forall t, u | t in s.resets && u in s.resets && !s.resets[t].used && !s.resets[u].used ::
      s.resets[t].userId == s.resets[u].userId ==> t == u) &&
    // no token wrote a password twice, and one that did is no longer unused
    (forall i, j :: 0 <= i < j < |s.writes| ==> s.writes[i] != s.writes[j]) &&
    (forall t :: t in s.writes ==> t in s.issued && (t in s.resets ==> s.resets[t].used))
  }

  lemma StepSingleUse(s: State, step: Step)
    requires SingleUse(s) && CanStep(s, step)
    ensures SingleUse(Next(s, step))
  {
    hide Count, Oldest, Recent, Times;
    match step
    case SecondSection(k, _) =>
      var x := s.submissions[k];
      if Live(s, x.token, x.now) {
        assert x.token !in s.writes;
      }
    case _ =>
  }

  // ---- rate limit ------------------------------------------------------------------------------

  /** Submissions of an address in the inclusive hour that starts at lo. */
  function InWindow(attempts: seq<Attempt>, ip: string, lo: int): int {
    Within(Times(attempts, ip), lo, RESET_WINDOW)
  }

  ghost predicate RateLimited(attempts: seq<Attempt>) {
    forall ip, lo :: InWindow(attempts, ip, lo) <= RESET_ATTEMPT_MAX_PER_IP
  }

  lemma TimesPush(attempts: seq<Attempt>, a: Attempt, ip: string)
    ensures Times(attempts + [a], ip) == if a.ip == ip then Times(attempts, ip) + [a.ts] else Times(attempts, ip)
  {
    assert (attempts + [a])[..|attempts|] == attempts;
  }

  lemma SubmitLimited(attempts: seq<Attempt>, a: Attempt)
    requires RateLimited(attempts) && Count(Times(attempts, a.ip), a.ts - RESET_WINDOW) < RESET_ATTEMPT_MAX_PER_IP
    ensures RateLimited(attempts + [a])
  {
    hide Count, Times, Within;
    forall ip, lo
      ensures InWindow(attempts + [a], ip, lo) <= RESET_ATTEMPT_MAX_PER_IP
    {
      assert InWindow(attempts, ip, lo) <= RESET_ATTEMPT_MAX_PER_IP;
      TimesPush(attempts, a, ip);
      if ip == a.ip {
        PushBounded(Times(attempts, ip), a.ts, lo, RESET_WINDOW, RESET_ATTEMPT_MAX_PER_IP);
      }
    }
  }

  /** The rows of an address that housekeeping keeps are its recent ones. */
  lemma {:induction false} RecentTimes(attempts: seq<Attempt>, cutoff: int, ip: string)
    ensures Times(Recent(attempts, cutoff), ip) == From(Times(attempts, ip), cutoff)
  {
    if |attempts| > 0 {
      hide Times, From;
      var a, rest := attempts[|attempts| - 1], attempts[..|attempts| - 1];
      var kept := Recent(rest, cutoff);
      RecentTimes(rest, cutoff, ip);
      TimesPush(rest, a, ip);
      FromLast(Times(rest, ip), a.ts, cutoff);
      assert rest + [a] == attempts;
      if a.ts < cutoff {
        assert kept + [] == kept;
      } else {
        TimesPush(kept, a, ip);
      }
    }
  }

  lemma StepRateLimited(s: State, step: Step)
    requires RateLimited(s.attempts) && CanStep(s, step)
    ensures RateLimited(Next(s, step).attempts)
  {
    hide Within, Times, Count, Oldest, From;
    match step
    case FirstSection(k) =>
      var x := s.submissions[k];
      if Count(Times(s.attempts, x.ip), x.now - RESET_WINDOW) < RESET_ATTEMPT_MAX_PER_IP {
        SubmitLimited(s.attempts, Attempt(x.ip, x.now));
      }
    case Prune(now) =>
      var kept := Recent(s.attempts, now - RESET_WINDOW);
      forall ip, lo
        ensures InWindow(kept, ip, lo) <= RESET_ATTEMPT_MAX_PER_IP
      {
        assert InWindow(s.attempts, ip, lo) <= RESET_ATTEMPT_MAX_PER_IP;
        RecentTimes(s.attempts, now - RESET_WINDOW, ip);
        FromWithin(Times(s.attempts, ip), now - RESET_WINDOW, lo, RESET_WINDOW);
      }
    case _ =>
  }

  /**
   * In every interleaving: a user has at most one unused token, a token writes a password at
   * most once, and no address gets more than 20 submissions stored in any hour.
   */
  lemma {:induction false} RunSafe(states: seq<State>, steps: seq<Step>)
    requires Run(states, steps)
    ensures SingleUse(states[|steps|]) && RateLimited(states[|steps|].attempts)
  {
    if |steps| > 0 {
      hide SingleUse, RateLimited, Next, Initial;
      var n := |steps| - 1;
      RunSafe(states[..n + 1], steps[..n]);
      StepSingleUse(states[n], steps[n]);
      StepRateLimited(states[n], steps[n]);
    }
  }

  /** Number of submissions of a token that have written a password. */
  function Writers(submissions: seq<Submission>, token: string): nat {
    if |submissions| == 0 then 0
    else
      var x := submissions[|submissions| - 1];
      Writers(submissions[..|submissions| - 1], token) + if x.token == token && x.pc == Written then 1 else 0
  }

  function Occurrences(writes: seq<string>, token: string): nat {
    if |writes| == 0 then 0
    else Occurrences(writes[..|writes| - 1], token) + if writes[|writes| - 1] == token then 1 else 0
  }

  lemma {:induction false} WritersUpdate(submissions: seq<Submission>, k: nat, x: Submission, token: string)
    requires k < |submissions|
    ensures Writers(submissions[k := x], token) == Writers(submissions, token) -
      (if submissions[k].token == token && submissions[k].pc == Written then 1 else 0) +
      if x.token == token && x.pc == Written then 1 else 0
  {
    var n := |submissions| - 1;
    if k < n {
      WritersUpdate(submissions[..n], k, x, token);
      assert submissions[k := x][..n] == submissions[..n][k := x];
    } else {
      assert submissions[k := x][..n] == submissions[..n];
    }
  }

  lemma StepWriters(s: State, step: Step, token: string)
    requires CanStep(s, step) && Writers(s.submissions, token) == Occurrences(s.writes, token)
    ensures Writers(Next(s, step).submissions, token) == Occurrences(Next(s, step).writes, token)
  {
    hide Count, Oldest, Recent, Times, Live, Writers, Occurrences;
    var t := Next(s, step);
    match step
    case Submit(_, ip, now) => WritersPush(s.submissions, Submission(step.token, ip, now, Arrived), token);
    case FirstSection(k) => WritersUpdate(s.submissions, k, t.submissions[k], token);
    case SecondSection(k, _) =>
      WritersUpdate(s.submissions, k, t.submissions[k], token);
      OccurrencesPush(s.writes, s.submissions[k].token, token);
    case _ =>
  }

  lemma WritersPush(submissions: seq<Submission>, x: Submission, token: string)
    ensures Writers(submissions + [x], token) ==
      Writers(submissions, token) + if x.token == token && x.pc == Written then 1 else 0
  {
    assert (submissions + [x])[..|submissions|] == submissions;
  }

  lemma OccurrencesPush(writes: seq<string>, w: string, token: string)
    ensures Occurrences(writes + [w], token) == Occurrences(writes, token) + if w == token then 1 else 0
  {
    assert (writes + [w])[..|writes|] == writes;
  }

  lemma {:induction false} DistinctOnce(writes: seq<string>, token: string)
    requires forall i, j :: 0 <= i < j < |writes| ==> writes[i] != writes[j]
    ensures Occurrences(writes, token) == if token in writes then 1 else 0
  {
    if |writes| > 0 {
      DistinctOnce(writes[..|writes| - 1], token);
      assert writes == writes[..|writes| - 1] + [writes[|writes| - 1]];
    }
  }

  lemma {:induction false} RunWriters(states: seq<State>, steps: seq<Step>, token: string)
    requires Run(states, steps)
    ensures Writers(states[|steps|].submissions, token) == Occurrences(states[|steps|].writes, token)
  {
    if |steps| > 0 {
      hide Next, Initial, Writers, Occurrences;
      var n := |steps| - 1;
      RunWriters(states[..n + 1], steps[..n], token);
      StepWriters(states[n], steps[n], token);
    } else {
      hide Count, Times;
    }
  }

  /** However submissions of one token interleave, at most one of them sets a password. */
  lemma OneWriterPerToken(states: seq<State>, steps: seq<Step>, token: string)
    requires Run(states, steps)
    ensures Writers(states[|steps|].submissions, token) <= 1
  {
    RunSafe(states, steps);
    RunWriters(states, steps, token);
    DistinctOnce(states[|steps|].writes, token);
  }

  // ---- who may write a password, and when -----------------------------------------------------------

  /** A new token lives for half an hour, as long as its user does, and the user's older ones are dead. */
  lemma FreshTokenLives(s: State, userId: int, token: string, now: int, other: string, later: int)
    requires CanStep(s, Create(userId, token, now)) && (other in s.resets ==> other in s.issued)
    ensures var t := Next(s, Create(userId, token, now));
      (Live(t, token, later) <==> later <= now + 1800 && userId in s.users) &&
      (other != token ==>
        (Live(t, other, later) <==> Live(s, other, later) && s.resets[other].userId != userId))
  {
  }

  /** Until then only the user's next token, its own use, or the end of the user ends it. */
  lemma TokenStays(s: State, step: Step, token: string, later: int)
    requires CanStep(s, step) && Live(s, token, later) && (forall t :: t in s.resets ==> t in s.issued)
    requires step.Create? ==> step.userId != s.resets[token].userId
    requires step.SecondSection? ==> s.submissions[step.k].token != token
    requires step.DeleteUser? ==> step.userId != s.resets[token].userId
    requires step.Prune? ==> step.now <= later
    ensures Live(Next(s, step), token, later)
  {
    hide Count, Oldest, Recent, Times;
  }

  /** The second submission section sets the password exactly for a live token, and uses the token up. */
  lemma SecondSectionExactly(s: State, k: nat, pwHash: string)
    requires CanStep(s, SecondSection(k, pwHash))
    ensures var t, x := Next(s, SecondSection(k, pwHash)), s.submissions[k];
      if Live(s, x.token, x.now) then
        t.submissions[k].pc == Written && t.users == s.users[s.resets[x.token].userId := pwHash] &&
        forall later :: !Live(t, x.token, later)
      else t.submissions[k].pc == Invalid && t.users == s.users && t.resets == s.resets
  {
    hide Count, Oldest, Recent, Times;
  }

  /** The row came from a call for that user half an hour before it expires; while it is unused, no later one did. */
  ghost predicate CreatedBy(steps: seq<Step>, token: string, row: Reset) {
    exists j :: 0 <= j < |steps| && steps[j] == Create(row.userId, token, row.expires - 1800) &&
      (!row.used ==> NoneSince(steps, j, row.userId))
  }

  ghost predicate NoneSince(steps: seq<Step>, j: nat, userId: int) {
    forall m :: j < m < |steps| ==> !(steps[m].Create? && steps[m].userId == userId)
  }

  ghost predicate AllCreated(steps: seq<Step>, s: State) {
    forall token :: token in s.resets ==> CreatedBy(steps, token, s.resets[token])
  }

  lemma StillCreated(steps: seq<Step>, step: Step, token: string, row: Reset)
    requires CreatedBy(steps, token, row)
    ensures CreatedBy(steps + [step], token, row.(used := true))
    ensures !(step.Create? && step.userId == row.userId) ==> CreatedBy(steps + [step], token, row)
  {
    var j :| 0 <= j < |steps| && steps[j] == Create(row.userId, token, row.expires - 1800) &&
      (!row.used ==> NoneSince(steps, j, row.userId));
    var all := steps + [step];
    assert all[j] == Create(row.userId, token, row.expires - 1800);
    assert forall m :: 0 <= m < |steps| ==> all[m] == steps[m];
  }

  /** A call leaves a row as it is or marks it used, or makes the one it is about. */
  lemma RowAfter(s: State, step: Step, token: string)
    requires CanStep(s, step) && token in Next(s, step).resets
    ensures var row := Next(s, step).resets[token];
      (step.Create? && step.token == token && row == Reset(step.userId, step.now + 1800, false)) ||
      (token in s.resets &&
        (row == s.resets[token].(used := true) ||
         (row == s.resets[token] && (step.Create? && step.userId == row.userId ==> row.used))))
  {
    hide Count, Oldest, Recent, Times;
  }

  lemma StepCreated(steps: seq<Step>, s: State, step: Step)
    requires AllCreated(steps, s) && CanStep(s, step)
    ensures AllCreated(steps + [step], Next(s, step))
  {
    hide Next, CanStep, CreatedBy;
    forall token | token in Next(s, step).resets
      ensures CreatedBy(steps + [step], token, Next(s, step).resets[token])
    {
      RowAfter(s, step, token);
      if token in s.resets {
        StillCreated(steps, step, token, s.resets[token]);
      }
      JustCreated(steps, step, token, Next(s, step).resets[token]);
    }
  }

  lemma JustCreated(steps: seq<Step>, step: Step, token: string, row: Reset)
    ensures step.Create? && step.token == token && row == Reset(step.userId, step.now + 1800, false) ==>
      CreatedBy(steps + [step], token, row)
  {
    assert (steps + [step])[|steps|] == step;
  }

  lemma NothingCreated(s: State)
    requires Initial(s)
    ensures AllCreated([], s)
  {
  }

  lemma {:induction false} RunCreated(states: seq<State>, steps: seq<Step>)
    requires Run(states, steps)
    ensures AllCreated(steps, states[|steps|])
  {
    hide AllCreated, Next, CanStep, Initial;
    if |steps| == 0 {
      NothingCreated(states[0]);
      assert steps == [];
    } else {
      var n := |steps| - 1;
      RunCreated(states[..n + 1], steps[..n]);
      StepCreated(steps[..n], states[n], steps[n]);
      assert steps == steps[..n] + [steps[n]];
    }
  }

  /**
   * In every interleaving a password is only written for the user a token was created for, by a
   * submission made at most half an hour after that, and with no newer token created for the user.
   */
  lemma WritesInTime(states: seq<State>, steps: seq<Step>, i: nat)
    requires Run(states, steps) && i < |steps| && steps[i].SecondSection?
    requires |states[i + 1].writes| > |states[i].writes|
    ensures var x := states[i].submissions[steps[i].k];
      exists j :: 0 <= j < i && steps[j].Create? && steps[j].token == x.token && x.now <= steps[j].now + 1800 &&
        NoneSince(steps[..i], j, steps[j].userId) && steps[j].userId in states[i].users &&
        states[i + 1].users == states[i].users[steps[j].userId := steps[i].pwHash]
  {
    hide Initial, Count, Oldest, Times, Recent, NoneSince;
    assert Run(states[..i + 1], steps[..i]);
    RunCreated(states[..i + 1], steps[..i]);
    var s, x := states[i], states[i].submissions[steps[i].k];
    assert states[i + 1] == Next(s, steps[i]);
    var row := s.resets[x.token];
    assert CreatedBy(steps[..i], x.token, row);
    var j :| 0 <= j < i && steps[..i][j] == Create(row.userId, x.token, row.expires - 1800) &&
      (!row.used ==> NoneSince(steps[..i], j, row.userId));
    assert steps[j].Create?;
  }

  // ---- the limit, both ways -------------------------------------------------------------------------

  lemma {:induction false} TimesCounted(attempts: seq<Attempt>, ip: string, since: int, p: Attempt -> bool)
    requires forall a :: p(a) <==> a.ip == ip && a.ts >= since
    ensures CountIf(attempts, p) == Count(Times(attempts, ip), since)
  {
    if |attempts| > 0 {
      var rest, a := attempts[..|attempts| - 1], attempts[|attempts| - 1];
      TimesCounted(rest, ip, since, p);
      assert attempts == rest + [a];
      hide Count, Times;
      TimesPush(rest, a, ip);
      CountPush(Times(rest, ip), a.ts, since);
    }
  }

  /**
   * A submission is turned away exactly when the last hour holds 20 stored ones of its address;
   * otherwise it is stored, and its token costs a hashing exactly when it lives.
   */
  lemma FirstSectionExactly(s: State, k: nat)
    requires CanStep(s, FirstSection(k))
    ensures var t, x := Next(s, FirstSection(k)), s.submissions[k];
      t.users == s.users && t.resets == s.resets && t.writes == s.writes && |t.submissions| == |s.submissions| &&
      if CountIf(s.attempts, (a: Attempt) => a.ip == x.ip && a.ts >= x.now - 3600) >= 20 then
        t.submissions[k].pc.Limited? && t.attempts == s.attempts
      else
        t.submissions[k].pc == (if Live(s, x.token, x.now) then Hashing else Invalid) &&
        t.attempts == s.attempts + [Attempt(x.ip, x.now)]
  {
    var x := s.submissions[k];
    TimesCounted(s.attempts, x.ip, x.now - 3600, (a: Attempt) => a.ip == x.ip && a.ts >= x.now - 3600);
    hide CountIf, Count, Times, Live, Oldest;
  }

  lemma {:induction false} TimeOfAttempt(attempts: seq<Attempt>, ip: string, now: int, t: int)
    requires forall a :: a in attempts ==> a.ts <= now
    ensures t in Times(attempts, ip) ==> exists a :: a in attempts && a.ip == ip && a.ts == t
    ensures Count(Times(attempts, ip), now + 1) == 0
  {
    if |attempts| > 0 {
      var rest, a := attempts[..|attempts| - 1], attempts[|attempts| - 1];
      assert attempts == rest + [a];
      TimeOfAttempt(rest, ip, now, t);
      TimesPush(rest, a, ip);
      CountPush(Times(rest, ip), a.ts, now + 1);
    }
  }

  /**
   * One that is turned away is told when a stored submission of its address leaves the last hour,
   * one second at least; one second later, with nothing stored meanwhile, it would get through.
   */
  lemma LimitEnds(states: seq<State>, steps: seq<Step>, k: nat)
    requires Run(states, steps) && CanStep(states[|steps|], FirstSection(k))
    requires var s := states[|steps|]; forall a :: a in s.attempts ==> a.ts <= s.submissions[k].now
    requires Next(states[|steps|], FirstSection(k)).submissions[k].pc.Limited?
    ensures var s := states[|steps|];
      var x, wait := s.submissions[k], Next(s, FirstSection(k)).submissions[k].pc.retryAfter;
      exists a :: a in s.attempts && a.ip == x.ip && x.now - 3600 <= a.ts && wait == Max(1, a.ts + 3600 - x.now) &&
        CountIf(s.attempts, (b: Attempt) => b.ip == x.ip && b.ts >= a.ts + 1) < 20
  {
    RunSafe(states, steps);
    var s := states[|steps|];
    var x := s.submissions[k];
    var times, since := Times(s.attempts, x.ip), x.now - 3600;
    hide Run, Times, Count, Oldest;
    assert InWindow(s.attempts, x.ip, since) <= 20;
    assert Count(times, since) >= 20;
    OldestBounds(times, since);
    TimeOfAttempt(s.attempts, x.ip, x.now, Oldest(times, since));
    WindowOpens(times, 3600, 20, x.now);
    var a :| a in s.attempts && a.ip == x.ip && a.ts == Oldest(times, since);
    TimesCounted(s.attempts, x.ip, a.ts + 1, (b: Attempt) => b.ip == x.ip && b.ts >= a.ts + 1);
  }
}
