/**
 * The waiting loop of the resolver thread on a clock: baseline rounds, retries with
 * backoff, triggers that are served once a gap has passed, and waits that end early
 * for no reason or after five seconds.
 */
module Schedule {
  import opened Arithmetic
  import opened Wrappers

  /** Times are in seconds; lag is how long a woken thread may take to run its test. */
  datatype Config = Config(interval: real, minGap: real, retry: real, lag: real)

  ghost predicate ValidConfig(cfg: Config) {
    cfg.interval >= 0.0 && cfg.minGap >= 0.0 && cfg.retry >= 0.0 && cfg.lag >= 0.0
  }

  const WAIT_CAP: real := 5.0

  function Least(a: real, b: real): (r: real)
    ensures r <= a && r <= b && (r == a || r == b)
  {
    if a < b then a else b
  }

  function Greatest(a: real, b: real): (r: real)
    ensures r >= a && r >= b && (r == a || r == b)
  {
    if a < b then b else a
  }

  /** The retry delay after so many failed rounds in a row, before it is capped. */
  function Delay(cfg: Config, failures: nat): real
    requires failures > 0
  {
    cfg.retry * Pow2(failures - 1) as real
  }

  /** Seconds until the next round without a trigger. */
  function NextInterval(cfg: Config, failures: nat): real {
    if failures > 0 then Least(Delay(cfg, failures), cfg.interval) else cfg.interval
  }

  /** The first retry comes after the retry delay, each further one after twice the delay before. */
  lemma DelayDoubles(cfg: Config, f: nat)
    requires f >= 1
    ensures Delay(cfg, 1) == cfg.retry && Delay(cfg, f + 1) == 2.0 * Delay(cfg, f)
  {
    assert Pow2(0) == 1 && Pow2(f) as real == 2.0 * Pow2(f - 1) as real;
    hide Pow2;
    assert cfg.retry * (2.0 * Pow2(f - 1) as real) == 2.0 * (cfg.retry * Pow2(f - 1) as real);
  }

  /** While the first few retries are sooner than the interval, they are 1, 2, 4, .. delays apart. */
  lemma IntervalIs(cfg: Config, failures: nat)
    ensures failures == 0 ==> NextInterval(cfg, failures) == cfg.interval
    ensures failures > 0 && Delay(cfg, failures) <= cfg.interval ==> NextInterval(cfg, failures) == Delay(cfg, failures)
    ensures failures > 0 && Delay(cfg, failures) > cfg.interval ==> NextInterval(cfg, failures) == cfg.interval
  {
    hide Delay;
  }

  lemma ScaleMonotone(a: real, b: real, c: real)
    requires a <= b && c >= 0.0
    ensures c * a <= c * b
  {
  }

  lemma DelayMonotone(cfg: Config, f: nat, g: nat)
    requires cfg.retry >= 0.0 && 1 <= f <= g
    ensures cfg.retry <= Delay(cfg, f) <= Delay(cfg, g)
  {
    Pow2Monotone(f - 1, g - 1);
    ScaleMonotone(Pow2(f - 1) as real, Pow2(g - 1) as real, cfg.retry);
    ScaleMonotone(1.0, Pow2(f - 1) as real, cfg.retry);
  }

  /** The retry delay never shrinks while rounds keep failing, and never exceeds the interval. */
  lemma BackoffMonotone(cfg: Config, f: nat, g: nat)
    requires ValidConfig(cfg) && 1 <= f <= g
    ensures Least(cfg.retry, cfg.interval) <= NextInterval(cfg, f) <= NextInterval(cfg, g) <= cfg.interval
  {
    hide Delay;
    DelayMonotone(cfg, f, g);
  }

  /** Where the loop is: in a round; awake since a time, about to test; or asleep until a time. */
  datatype Phase = Resolving | Awake(since: real) | Asleep(until: real)

  /** A finished wait: when its round had ended, what was known, and when the next round started. */
  datatype Wait = Wait(end: real, failures: nat, kickedAt: Option<real>, start: real)

  /** kickedAt is the first trigger not served yet; end is when the last round ended. */
  datatype State = State(now: real, phase: Phase, kickedAt: Option<real>, failures: nat, end: real, waits: seq<Wait>)

  datatype Step = Tick(d: real) | Trigger | EndRound(failed: bool) | Wake | Test

  function Deadline(cfg: Config, s: State): real {
    s.end + NextInterval(cfg, s.failures)
  }

  function GapEnd(cfg: Config, s: State): real {
    s.end + cfg.minGap
  }

  /** The test at the head of the loop. */
  predicate Due(cfg: Config, s: State) {
    s.now >= Deadline(cfg, s) || (s.kickedAt.Some? && s.now >= GapEnd(cfg, s))
  }

  /** Until when to sleep when no round is due. */
  function Target(cfg: Config, s: State): real {
    if s.kickedAt.Some? then Least(Deadline(cfg, s), GapEnd(cfg, s)) else Deadline(cfg, s)
  }

  /** The clock runs on, but not past the end of a sleep nor past the lag of a test; a wait may end at any time. */
  predicate CanStep(cfg: Config, s: State, step: Step) {
    match step
    case Tick(d) =>
      d >= 0.0 &&
      (s.phase.Asleep? ==> s.now + d <= s.phase.until) &&
      (s.phase.Awake? ==> s.now + d <= s.phase.since + cfg.lag)
    case Trigger => true
    case EndRound(_) => s.phase.Resolving?
    case Wake => s.phase.Asleep?
    case Test => s.phase.Awake?
  }

  function Next(cfg: Config, s: State, step: Step): State
    requires CanStep(cfg, s, step)
  {
    match step
    case Tick(d) => s.(now := s.now + d)
    case Trigger =>
      s.(kickedAt := if s.kickedAt.Some? then s.kickedAt else Some(s.now),
         phase := if s.phase.Asleep? then Awake(s.now) else s.phase)
    case EndRound(failed) =>
      s.(failures := if failed then s.failures + 1 else 0, end := s.now, phase := Awake(s.now))
    case Wake => s.(phase := Awake(s.now))
    case Test =>
      if Due(cfg, s) then
        s.(phase := Resolving, kickedAt := None, waits := s.waits + [Wait(s.end, s.failures, s.kickedAt, s.now)])
      else s.(phase := Asleep(s.now + Least(Target(cfg, s) - s.now, WAIT_CAP)))
  }

  ghost predicate Initial(s: State) {
    s.phase == Resolving && s.kickedAt == None && s.failures == 0 && s.waits == [] && s.end <= s.now
  }

  ghost predicate Run(cfg: Config, states: seq<State>, steps: seq<Step>) {
    |states| == |steps| + 1 && Initial(states[0]) &&
    forall i :: 0 <= i < |steps| ==>
      CanStep(cfg, states[i], steps[i]) && states[i + 1] == Next(cfg, states[i], steps[i])
  }

  /** When a wait should end: at its deadline, or once its gap has passed and a trigger has come. */
  function Goal(cfg: Config, end: real, failures: nat, kickedAt: Option<real>): real {
    var deadline := end + NextInterval(cfg, failures);
    if kickedAt.Some? then Least(deadline, Greatest(kickedAt.value, end + cfg.minGap)) else deadline
  }

  /** The next round started when it should, not before, and at most the lag later. */
  ghost predicate Timely(cfg: Config, w: Wait) {
    var goal := Goal(cfg, w.end, w.failures, w.kickedAt);
    goal <= w.start <= goal + cfg.lag
  }

  /** No wait overstays: asleep the loop wakes by its goal, awake it has been so since the goal at most. */
  ghost predicate Punctual(cfg: Config, s: State) {
    var goal := Goal(cfg, s.end, s.failures, s.kickedAt);
    s.end <= s.now && (s.kickedAt.Some? ==> s.kickedAt.value <= s.now) &&
    match s.phase
    case Resolving => true
    case Awake(since) => since <= s.now <= since + cfg.lag && since <= goal
    case Asleep(until) => s.now <= until <= goal
  }

  ghost predicate Good(cfg: Config, s: State) {
    Punctual(cfg, s) && forall i :: 0 <= i < |s.waits| ==> Timely(cfg, s.waits[i])
  }

  lemma IntervalPositive(cfg: Config, failures: nat)
    requires ValidConfig(cfg)
    ensures NextInterval(cfg, failures) >= 0.0
  {
    if failures > 0 {
      BackoffMonotone(cfg, failures, failures);
    }
  }

  lemma StepGood(cfg: Config, s: State, step: Step)
    requires ValidConfig(cfg) && Good(cfg, s) && CanStep(cfg, s, step)
    ensures Good(cfg, Next(cfg, s, step))
  {
    var t := Next(cfg, s, step);
    IntervalPositive(cfg, t.failures);
    hide NextInterval;
    assert Punctual(cfg, t);
    if step.Test? && Due(cfg, s) {
      assert Timely(cfg, t.waits[|s.waits|]);
    }
  }

  /**
   * In every run of rounds, triggers, early and late wake-ups every next round starts exactly when
   * it should: at the deadline, or at the trigger or the end of the gap, whichever is later, if
   * that is sooner; at most the lag late.  And no wait still going on is later than that.
   */
  lemma {:induction false} RunGood(cfg: Config, states: seq<State>, steps: seq<Step>)
    requires ValidConfig(cfg) && Run(cfg, states, steps)
    ensures Good(cfg, states[|steps|])
  {
    if |steps| > 0 {
      hide Good, Next, CanStep, Initial;
      var n := |steps| - 1;
      RunGood(cfg, states[..n + 1], steps[..n]);
      StepGood(cfg, states[n], steps[n]);
    }
  }

  // ---- rounds keep their distance exactly when the configuration does -------------------------------

  ghost predicate Reachable(cfg: Config, s: State) {
    exists states, steps :: Run(cfg, states, steps) && states[|steps|] == s
  }

  lemma ReachableStep(cfg: Config, s: State, step: Step)
    requires Reachable(cfg, s) && CanStep(cfg, s, step)
    ensures Reachable(cfg, Next(cfg, s, step))
  {
    var states, steps :| Run(cfg, states, steps) && states[|steps|] == s;
    hide CanStep, Next, Initial;
    var more := states + [Next(cfg, s, step)];
    assert Run(cfg, more, steps + [step]);
    assert more[|steps + [step]|] == Next(cfg, s, step);
  }

  /** Does every wait end at least the gap after its round? */
  ghost predicate Apart(cfg: Config, s: State) {
    forall i :: 0 <= i < |s.waits| ==> s.waits[i].start >= s.waits[i].end + cfg.minGap
  }

  /** In every run a round starts at least the gap after the last one's end, when neither delay is shorter. */
  lemma RoundsApart(cfg: Config, states: seq<State>, steps: seq<Step>)
    requires ValidConfig(cfg) && Run(cfg, states, steps)
    requires cfg.retry >= cfg.minGap && cfg.interval >= cfg.minGap
    ensures Apart(cfg, states[|steps|])
  {
    RunGood(cfg, states, steps);
    hide Run, NextInterval;
    var waits := states[|steps|].waits;
    forall i | 0 <= i < |waits|
      ensures waits[i].start >= waits[i].end + cfg.minGap
    {
      assert Timely(cfg, waits[i]);
      EnoughInterval(cfg, waits[i].failures);
    }
  }

  lemma EnoughInterval(cfg: Config, failures: nat)
    requires ValidConfig(cfg) && cfg.retry >= cfg.minGap && cfg.interval >= cfg.minGap
    ensures NextInterval(cfg, failures) >= cfg.minGap
  {
    if failures > 0 {
      BackoffMonotone(cfg, failures, failures);
    }
  }

  /** Awake at its wake-up time with nothing pending, and the deadline at most n sleeps away. */
  ghost predicate Dozing(cfg: Config, s: State, n: nat) {
    s.phase == Awake(s.now) && s.kickedAt == None && s.now <= Deadline(cfg, s) <= s.now + n as real * WAIT_CAP
  }

  /** Undisturbed, the loop sleeps on until its deadline and then starts a round. */
  lemma SleepOn(cfg: Config, s: State, n: nat) returns (t: State)
    requires Reachable(cfg, s) && Dozing(cfg, s, n)
    ensures Reachable(cfg, t) && t.waits == s.waits + [Wait(s.end, s.failures, None, Deadline(cfg, s))]
    decreases n
  {
    hide NextInterval, Reachable;
    t := Next(cfg, s, Test);
    ReachableStep(cfg, s, Test);
    if s.now < Deadline(cfg, s) {
      var d := t.phase.until - t.now;
      ReachableStep(cfg, t, Tick(d));
      t := Next(cfg, t, Tick(d));
      ReachableStep(cfg, t, Wake);
      t := Next(cfg, t, Wake);
      t := SleepOn(cfg, t, n - 1);
    }
  }

  /** A first round that fails, or succeeds, and the wait after it. */
  lemma FirstWait(cfg: Config, failed: bool) returns (t: State)
    requires ValidConfig(cfg)
    ensures Reachable(cfg, t) && |t.waits| == 1
    ensures var w := t.waits[0]; w.start == w.end + NextInterval(cfg, if failed then 1 else 0)
  {
    var s0 := State(0.0, Resolving, None, 0, 0.0, []);
    assert Run(cfg, [s0], []);
    assert Reachable(cfg, s0);
    hide NextInterval, Reachable;
    ReachableStep(cfg, s0, EndRound(failed));
    var s := Next(cfg, s0, EndRound(failed));
    IntervalPositive(cfg, s.failures);
    var n := EnoughSleeps(NextInterval(cfg, s.failures));
    t := SleepOn(cfg, s, n);
  }

  lemma EnoughSleeps(x: real) returns (n: nat)
    requires x >= 0.0
    ensures x <= n as real * WAIT_CAP
  {
    n := x.Floor + 1;
  }

  /** The configuration keeps rounds apart in every run exactly when neither delay is shorter than the gap. */
  lemma ApartExactly(cfg: Config)
    requires ValidConfig(cfg)
    ensures (forall s :: Reachable(cfg, s) ==> Apart(cfg, s)) <==> cfg.retry >= cfg.minGap && cfg.interval >= cfg.minGap
  {
    if cfg.retry >= cfg.minGap && cfg.interval >= cfg.minGap {
      forall s | Reachable(cfg, s)
        ensures Apart(cfg, s)
      {
        var states, steps :| Run(cfg, states, steps) && states[|steps|] == s;
        RoundsApart(cfg, states, steps);
      }
    } else {
      var t := FirstWait(cfg, true);
      FirstDelay(cfg);
      assert !Apart(cfg, t);
    }
  }

  lemma FirstDelay(cfg: Config)
    ensures NextInterval(cfg, 1) == Least(cfg.retry, cfg.interval)
  {
    assert Pow2(0) as real == 1.0;
  }

  // ---- triggers -------------------------------------------------------------------------------------

  /** Does the i-th step start a round? */
  ghost predicate Starts(cfg: Config, states: seq<State>, steps: seq<Step>, i: nat)
    requires i < |steps| < |states|
  {
    steps[i].Test? && Due(cfg, states[i])
  }

  /** A trigger of a run stays pending until a round starts, and that round's wait remembers it. */
  lemma {:induction false} KickPending(cfg: Config, states: seq<State>, steps: seq<Step>, i: nat, j: nat)
    requires Run(cfg, states, steps) && i <= j <= |steps| && states[i].kickedAt.Some?
    requires forall k :: i <= k < j ==> !Starts(cfg, states, steps, k)
    ensures states[j].kickedAt == states[i].kickedAt
    decreases j
  {
    if i < j {
      KickPending(cfg, states, steps, i, j - 1);
      assert states[j - 1 + 1] == Next(cfg, states[j - 1], steps[j - 1]);
      assert !Starts(cfg, states, steps, j - 1);
      hide NextInterval;
    }
  }

  /** In every run the first test at or after the end of the gap serves a pending trigger. */
  lemma KickServed(cfg: Config, states: seq<State>, steps: seq<Step>, i: nat, j: nat)
    requires Run(cfg, states, steps) && i <= j < |steps| && states[i].kickedAt.Some?
    requires forall k :: i <= k < j ==> !Starts(cfg, states, steps, k)
    requires steps[j].Test? && states[j].now >= GapEnd(cfg, states[j])
    ensures var w := Wait(states[j].end, states[j].failures, states[i].kickedAt, states[j].now);
      states[j + 1].phase == Resolving && states[j + 1].waits == states[j].waits + [w]
  {
    KickPending(cfg, states, steps, i, j);
    hide NextInterval;
  }

  /** A pending trigger has never waited past its own time, the gap and the lag. */
  lemma KickInTime(cfg: Config, states: seq<State>, steps: seq<Step>)
    requires ValidConfig(cfg) && Run(cfg, states, steps)
    ensures var s := states[|steps|];
      s.kickedAt.Some? && !s.phase.Resolving? ==> s.now <= Greatest(s.kickedAt.value, GapEnd(cfg, s)) + cfg.lag
  {
    RunGood(cfg, states, steps);
    hide Run, NextInterval;
  }

  /** The loop never sleeps for more than five seconds at a time. */
  lemma {:induction false} RunNaps(cfg: Config, states: seq<State>, steps: seq<Step>)
    requires Run(cfg, states, steps)
    ensures var s := states[|steps|]; s.phase.Asleep? ==> s.phase.until <= s.now + 5.0
  {
    if |steps| > 0 {
      var n := |steps| - 1;
      RunNaps(cfg, states[..n + 1], steps[..n]);
      hide NextInterval;
    }
  }

  /** The waits follow each other: a round ends after it has started, and each wait starts from that end. */
  ghost predicate Chained(s: State) {
    (forall i, j :: 0 <= i < j < |s.waits| ==> s.waits[i].start <= s.waits[j].end) &&
    (forall i :: 0 <= i < |s.waits| ==> s.waits[i].start <= if s.phase.Resolving? then s.now else s.end) &&
    s.end <= s.now
  }

  lemma {:induction false} RunChained(cfg: Config, states: seq<State>, steps: seq<Step>)
    requires Run(cfg, states, steps)
    ensures Chained(states[|steps|])
  {
    if |steps| > 0 {
      var n := |steps| - 1;
      RunChained(cfg, states[..n + 1], steps[..n]);
      hide NextInterval;
    }
  }
}
