/**
 * The resolver thread, the listener threads and the writer thread as one state
 * machine: every read or write of shared state is a step of its own, and steps of
 * different threads interleave in any order.
 */
module Pipeline {
  import opened Wrappers
  import opened Sources
  import opened Listener
  import Writer

  datatype Config = Config(env: Env, nets: seq<nat>, hosts: seq<string>, capacity: nat,
                           classify: string -> Outcome, device: nat -> string)

  datatype Msg = Msg(sender: string, data: string)

  /** Where the resolver thread is.  The three publications of a round are separate steps. */
  datatype Resolver =
    | Sleeping
    | Woken
    | Resolving
    | PublishResolved(known: Answers)
    | PublishAllowed
    | PublishGeneration

  /** Where a listener thread is; d is the datagram received in this turn of its loop, if any. */
  datatype Pc =
    | Waiting
    | Checking(d: Option<Msg>)
    | Noticed(d: Option<Msg>)
    | Releasing(d: Option<Msg>, todo: seq<Item>, keep: seq<Item>, out: seq<Item>)
    | Replaying(d: Option<Msg>, out: seq<Item>, left: seq<Item>, full: bool)
    | Correcting(d: Option<Msg>, n: nat)
    | Filtering(m: Msg)
    | Refused(m: Msg)
    | Holding(m: Msg)
    | Kicking
    | Accepted(m: Msg, full: bool)

  /** A datagram as it is handed to the parser; full: is the queue full at that moment? */
  datatype Line = Line(ts: int, device: string, text: string, full: bool)

  datatype Thread = Thread(gen: nat, items: seq<Item>, pc: Pc)

  /**
   * Shared state and thread states.  Kept for the proof only: versions, every value allowed
   * has had; received, all datagrams so far; taken, those handed to the parser; rounds, the
   * resolution rounds started; lastTrigger, the value of rounds at the last trigger; answers,
   * those of the finished rounds.
   */
  datatype State = State(
    resolved: Answers, allowed: set<Net>, generation: nat, kicked: bool, resolver: Resolver,
    threads: seq<Thread>, tally: Tally, rejected: nat,
    events: seq<Parsed>, unparsed: seq<Parsed>, storedEvents: seq<Parsed>, storedUnparsed: seq<Parsed>,
    versions: seq<set<Net>>, received: seq<Msg>, taken: seq<Line>, rounds: nat, lastTrigger: int, answers: seq<Round>)

  datatype Action =
    | Receive(msg: Msg)
    | Timeout
    | Check
    | Record(now: int)
    | Judge
    | Finish
    | ReplayOne
    | CountFull
    | EndReplay
    | Correct
    | Filter
    | Reject
    | Hold(now: int)
    | Kick
    | Ingest(now: int)

  datatype Step =
    | Wake
    | StartRound
    | EndRound(answer: Round)
    | Publish
    | Act(i: nat, action: Action)
    | Take
    | Flush

  predicate Enabled(cfg: Config) {
    |cfg.nets| > 0 || |cfg.hosts| > 0
  }

  predicate Allows(cfg: Config, allowed: set<Net>, sender: string) {
    Admits(cfg.env, Enabled(cfg), allowed, sender)
  }

  // ---- the steps of a listener ------------------------------------------------------------------

  predicate CanAct(l: Thread, a: Action) {
    match a
    case Receive(_) => l.pc.Waiting?
    case Timeout => l.pc.Waiting?
    case Check => l.pc.Checking?
    case Record(_) => l.pc.Noticed?
    case Judge => l.pc.Releasing? && |l.pc.todo| > 0
    case Finish => l.pc.Releasing? && |l.pc.todo| == 0
    case ReplayOne => l.pc.Replaying? && !l.pc.full && |l.pc.left| > 0
    case CountFull => (l.pc.Replaying? && l.pc.full && |l.pc.left| > 0) || (l.pc.Accepted? && l.pc.full)
    case EndReplay => l.pc.Replaying? && !l.pc.full && |l.pc.left| == 0
    case Correct => l.pc.Correcting?
    case Filter => l.pc.Filtering?
    case Reject => l.pc.Refused?
    case Hold(_) => l.pc.Holding?
    case Kick => l.pc.Kicking?
    case Ingest(_) => l.pc.Accepted? && !l.pc.full
  }

  function AfterCheck(d: Option<Msg>): Pc {
    if d.Some? then Filtering(d.value) else Waiting
  }

  /** Is the parsed datagram refused by the full queue? */
  predicate MeetsFullQueue(cfg: Config, t: Tally, data: string) {
    cfg.classify(data) != Ignored && !HasRoom(t.queue, cfg.capacity)
  }

  function Took(cfg: Config, s: State, i: nat, ts: int, data: string): seq<Line> {
    s.taken + [Line(ts, cfg.device(i), data, cfg.capacity > 0 && |s.tally.queue| >= cfg.capacity)]
  }

  function ActOn(cfg: Config, s: State, i: nat, a: Action): State
    requires i < |s.threads| && CanAct(s.threads[i], a)
  {
    var l := s.threads[i];
    match a
    case Receive(msg) => s.(received := s.received + [msg], threads := s.threads[i := l.(pc := Checking(Some(msg)))])
    case Timeout => s.(threads := s.threads[i := l.(pc := Checking(None))])
    case Check =>
      var d := l.pc.d;
      var changed := |cfg.hosts| > 0 && s.generation != l.gen;
      s.(threads := s.threads[i := l.(pc := if changed then Noticed(d) else AfterCheck(d))])
    case Record(now) =>
      s.(threads := s.threads[i := l.(gen := s.generation, pc := Releasing(l.pc.d, Expire(l.items, now), [], []))])
    case Judge =>
      var Releasing(d, todo, keep, out) := l.pc;
      var x := todo[0];
      s.(threads := s.threads[i := l.(pc :=
        if Allows(cfg, s.allowed, x.sender) then Releasing(d, todo[1..], keep, out + [x])
        else Releasing(d, todo[1..], keep + [x], out))])
    case Finish =>
      var Releasing(d, todo, keep, out) := l.pc;
      s.(threads := s.threads[i := l.(items := Bounded(keep),
        pc := if |out| == 0 then AfterCheck(d) else Replaying(d, out, out, false))])
    case ReplayOne =>
      var Replaying(d, out, left, full) := l.pc;
      var x := left[0];
      if MeetsFullQueue(cfg, s.tally, x.data) then
        s.(taken := Took(cfg, s, i, x.ts, x.data), threads := s.threads[i := l.(pc := Replaying(d, out, left, true))])
      else
        s.(taken := Took(cfg, s, i, x.ts, x.data),
           tally := IngestOne(s.tally, cfg.capacity, cfg.classify(x.data), x.ts, cfg.device(i), x.data),
           threads := s.threads[i := l.(pc := Replaying(d, out, left[1..], false))])
    case CountFull =>
      s.(tally := s.tally.(dropped := s.tally.dropped + 1),
         threads := s.threads[i := l.(pc :=
           if l.pc.Replaying? then Replaying(l.pc.d, l.pc.out, l.pc.left[1..], false) else Waiting)])
    case EndReplay => s.(threads := s.threads[i := l.(pc := Correcting(l.pc.d, |l.pc.out|))])
    case Correct =>
      s.(rejected := if s.rejected < l.pc.n then 0 else s.rejected - l.pc.n,
         threads := s.threads[i := l.(pc := AfterCheck(l.pc.d))])
    case Filter =>
      var m := l.pc.m;
      s.(threads := s.threads[i := l.(pc :=
        if Allows(cfg, s.allowed, m.sender) then Accepted(m, false) else Refused(m))])
    case Reject =>
      s.(rejected := s.rejected + 1,
         threads := s.threads[i := l.(pc := if |cfg.hosts| > 0 then Holding(l.pc.m) else Waiting)])
    case Hold(now) =>
      s.(threads := s.threads[i := l.(items := HeldAdd(l.items, now, l.pc.m.sender, l.pc.m.data), pc := Kicking)])
    case Kick =>
      s.(kicked := true, lastTrigger := s.rounds, threads := s.threads[i := l.(pc := Waiting)])
    case Ingest(now) =>
      var m := l.pc.m;
      if MeetsFullQueue(cfg, s.tally, m.data) then
        s.(taken := Took(cfg, s, i, now, m.data), threads := s.threads[i := l.(pc := Accepted(m, true))])
      else
        s.(taken := Took(cfg, s, i, now, m.data),
           tally := IngestOne(s.tally, cfg.capacity, cfg.classify(m.data), now, cfg.device(i), m.data),
           threads := s.threads[i := l.(pc := Waiting)])
  }

  // ---- all steps ------------------------------------------------------------------------------------

  predicate CanStep(cfg: Config, s: State, step: Step) {
    match step
    case Wake => s.resolver == Sleeping
    case StartRound => s.resolver == Woken
    case EndRound(_) => s.resolver == Resolving
    case Publish => s.resolver.PublishResolved? || s.resolver == PublishAllowed || s.resolver == PublishGeneration
    case Act(i, a) => i < |s.threads| && CanAct(s.threads[i], a)
    case Take => |s.tally.queue| > 0
    case Flush => true
  }

  function Next(cfg: Config, s: State, step: Step): State
    requires CanStep(cfg, s, step)
  {
    match step
    case Wake => s.(kicked := false, resolver := Woken)
    case StartRound => s.(rounds := s.rounds + 1, resolver := Resolving)
    case EndRound(answer) =>
      s.(answers := s.answers + [answer], resolver :=
        if News(s.resolved, cfg.hosts, answer, |cfg.hosts|) then
          PublishResolved(Learn(s.resolved, cfg.hosts, answer, |cfg.hosts|))
        else Sleeping)
    case Publish =>
      if s.resolver.PublishResolved? then s.(resolved := s.resolver.known, resolver := PublishAllowed)
      else if s.resolver == PublishAllowed then
        var allowed := Literals(cfg.nets) + Dynamic(cfg.hosts, s.resolved);
        s.(allowed := allowed, versions := s.versions + [allowed], resolver := PublishGeneration)
      else s.(generation := s.generation + 1, resolver := Sleeping)
    case Act(i, a) => ActOn(cfg, s, i, a)
    case Take =>
      var x := s.tally.queue[0];
      var t := s.tally.(queue := s.tally.queue[1..]);
      if x.Ev? then s.(tally := t, events := s.events + [x]) else s.(tally := t, unparsed := s.unparsed + [x])
    case Flush =>
      s.(storedEvents := s.storedEvents + s.events, events := [],
         storedUnparsed := s.storedUnparsed + s.unparsed, unparsed := [])
  }

  ghost predicate Initial(cfg: Config, s: State) {
    s.resolved == map[] && s.allowed == Literals(cfg.nets) && s.generation == 0 && !s.kicked && s.resolver == Woken &&
    (forall i :: 0 <= i < |s.threads| ==> s.threads[i] == Thread(0, [], Waiting)) &&
    s.tally == Tally([], 0, 0) && s.rejected == 0 && s.events == [] && s.unparsed == [] &&
    s.storedEvents == [] && s.storedUnparsed == [] &&
    s.versions == [s.allowed] && s.received == [] && s.taken == [] && s.rounds == 0 && s.lastTrigger == -1 &&
    s.answers == []
  }

  ghost predicate Run(cfg: Config, states: seq<State>, steps: seq<Step>) {
    |states| == |steps| + 1 && Initial(cfg, states[0]) &&
    forall i :: 0 <= i < |steps| ==>
      CanStep(cfg, states[i], steps[i]) && states[i + 1] == Next(cfg, states[i], steps[i])
  }

  // ---- no held datagram is forgotten -----------------------------------------------------------------

  /** Has an allowed set at least as new as generation g refused the sender? */
  ghost predicate RefusedSince(cfg: Config, versions: seq<set<Net>>, g: nat, sender: string) {
    exists v :: g <= v < |versions| && !Allows(cfg, versions[v], sender)
  }

  ghost predicate AllRefused(cfg: Config, versions: seq<set<Net>>, g: nat, items: seq<Item>) {
    forall x :: x in items ==> RefusedSince(cfg, versions, g, x.sender)
  }

  /** Everything a listener holds was refused by a set at least as new as the generation it has recorded. */
  ghost predicate Guarded(cfg: Config, versions: seq<set<Net>>, l: Thread) {
    AllRefused(cfg, versions, l.gen, if l.pc.Releasing? then l.pc.keep else l.items) &&
    (l.pc.Refused? || l.pc.Holding? ==> RefusedSince(cfg, versions, l.gen, l.pc.m.sender))
  }

  ghost predicate Versioned(cfg: Config, s: State) {
    |s.versions| == s.generation + (if s.resolver == PublishGeneration then 2 else 1) &&
    s.versions[|s.versions| - 1] == s.allowed &&
    (s.resolver != PublishAllowed ==> s.allowed == Literals(cfg.nets) + Dynamic(cfg.hosts, s.resolved))
  }

  ghost predicate Watched(cfg: Config, s: State) {
    Versioned(cfg, s) && forall i :: 0 <= i < |s.threads| ==>
      s.threads[i].gen <= s.generation && Guarded(cfg, s.versions, s.threads[i])
  }

  lemma {:induction false} ExpireMembers(items: seq<Item>, now: int)
    ensures forall x :: x in Expire(items, now) ==> x in items
    ensures |Expire(items, now)| <= |items|
  {
    if |items| > 0 {
      ExpireMembers(items[1..], now);
    }
  }

  lemma HeldAddRefused(cfg: Config, versions: seq<set<Net>>, g: nat, items: seq<Item>, now: int, m: Msg)
    requires AllRefused(cfg, versions, g, items) && RefusedSince(cfg, versions, g, m.sender)
    ensures AllRefused(cfg, versions, g, HeldAdd(items, now, m.sender, m.data))
  {
    ExpireMembers(items, now);
    hide RefusedSince, Expire;
  }

  lemma RefusedNow(cfg: Config, s: State, g: nat, sender: string)
    requires Versioned(cfg, s) && g <= s.generation && !Allows(cfg, s.allowed, sender)
    ensures RefusedSince(cfg, s.versions, g, sender)
  {
    assert !Allows(cfg, s.versions[|s.versions| - 1], sender);
  }

  lemma HoldGuarded(cfg: Config, s: State, i: nat, now: int)
    requires i < |s.threads| && CanAct(s.threads[i], Hold(now)) && Guarded(cfg, s.versions, s.threads[i])
    ensures Guarded(cfg, s.versions, ActOn(cfg, s, i, Hold(now)).threads[i])
  {
    hide RefusedSince, HeldAdd;
    var l := s.threads[i];
    HeldAddRefused(cfg, s.versions, l.gen, l.items, now, l.pc.m);
  }

  lemma JudgeGuarded(cfg: Config, s: State, i: nat)
    requires Versioned(cfg, s) && i < |s.threads| && CanAct(s.threads[i], Judge)
    requires s.threads[i].gen <= s.generation && Guarded(cfg, s.versions, s.threads[i])
    ensures Guarded(cfg, s.versions, ActOn(cfg, s, i, Judge).threads[i])
  {
    hide RefusedSince, Allows;
    var l := s.threads[i];
    if !Allows(cfg, s.allowed, l.pc.todo[0].sender) {
      RefusedNow(cfg, s, l.gen, l.pc.todo[0].sender);
    }
  }

  lemma FilterGuarded(cfg: Config, s: State, i: nat)
    requires Versioned(cfg, s) && i < |s.threads| && CanAct(s.threads[i], Filter)
    requires s.threads[i].gen <= s.generation && Guarded(cfg, s.versions, s.threads[i])
    ensures Guarded(cfg, s.versions, ActOn(cfg, s, i, Filter).threads[i])
  {
    hide RefusedSince, Allows;
    var l := s.threads[i];
    if !Allows(cfg, s.allowed, l.pc.m.sender) {
      RefusedNow(cfg, s, l.gen, l.pc.m.sender);
    }
  }

  lemma RecordGuarded(cfg: Config, s: State, i: nat, now: int)
    requires i < |s.threads| && CanAct(s.threads[i], Record(now))
    ensures Guarded(cfg, s.versions, ActOn(cfg, s, i, Record(now)).threads[i])
  {
    hide RefusedSince, Expire;
  }

  lemma FinishGuarded(cfg: Config, s: State, i: nat)
    requires i < |s.threads| && CanAct(s.threads[i], Finish) && Guarded(cfg, s.versions, s.threads[i])
    ensures Guarded(cfg, s.versions, ActOn(cfg, s, i, Finish).threads[i])
  {
    hide RefusedSince;
  }

  /** All other steps leave what is held, and a message on its way to be held. */
  lemma OtherKeeps(cfg: Config, s: State, i: nat, a: Action)
    requires i < |s.threads| && CanAct(s.threads[i], a)
    requires !a.Hold? && !a.Judge? && !a.Filter? && !a.Record? && !a.Finish?
    ensures var l, l' := s.threads[i], ActOn(cfg, s, i, a).threads[i];
      l'.items == l.items && l'.gen == l.gen && !l.pc.Releasing? && !l'.pc.Releasing? && !l'.pc.Refused? &&
      (l'.pc.Holding? ==> l.pc == Refused(l'.pc.m))
  {
    hide IngestOne, MeetsFullQueue, Took;
  }

  /** The own steps of a listener keep its guard. */
  lemma ActGuarded(cfg: Config, s: State, i: nat, a: Action)
    requires Versioned(cfg, s) && i < |s.threads| && CanAct(s.threads[i], a)
    requires s.threads[i].gen <= s.generation && Guarded(cfg, s.versions, s.threads[i])
    ensures Guarded(cfg, s.versions, ActOn(cfg, s, i, a).threads[i])
  {
    hide ActOn, CanAct, Versioned, RefusedSince;
    match a
    case Hold(now) => HoldGuarded(cfg, s, i, now);
    case Judge => JudgeGuarded(cfg, s, i);
    case Filter => FilterGuarded(cfg, s, i);
    case Record(now) => RecordGuarded(cfg, s, i, now);
    case Finish => FinishGuarded(cfg, s, i);
    case _ => OtherKeeps(cfg, s, i, a);
  }

  /** A publication only adds a version, so what was refused stays refused. */
  lemma GuardedLater(cfg: Config, versions: seq<set<Net>>, allowed: set<Net>, l: Thread)
    requires Guarded(cfg, versions, l)
    ensures Guarded(cfg, versions + [allowed], l)
  {
    forall x | RefusedSince(cfg, versions, l.gen, x)
      ensures RefusedSince(cfg, versions + [allowed], l.gen, x)
    {
      var v :| l.gen <= v < |versions| && !Allows(cfg, versions[v], x);
      assert (versions + [allowed])[v] == versions[v];
    }
    hide RefusedSince;
  }

  lemma StepWatched(cfg: Config, s: State, step: Step)
    requires Watched(cfg, s) && CanStep(cfg, s, step)
    ensures Watched(cfg, Next(cfg, s, step))
  {
    var t := Next(cfg, s, step);
    match step
    case Act(i, a) =>
      ActGuarded(cfg, s, i, a);
      ActFrame(cfg, s, i, a);
      hide Guarded, ActOn;
    case Publish =>
      forall i | 0 <= i < |s.threads|
        ensures Guarded(cfg, t.versions, t.threads[i])
      {
        if s.resolver == PublishAllowed {
          GuardedLater(cfg, s.versions, t.allowed, s.threads[i]);
        }
      }
    case _ =>
  }

  /** What a step of listener i leaves alone. */
  lemma ActFrame(cfg: Config, s: State, i: nat, a: Action)
    requires i < |s.threads| && CanAct(s.threads[i], a) && s.threads[i].gen <= s.generation
    ensures var t := ActOn(cfg, s, i, a);
      t.resolved == s.resolved && t.allowed == s.allowed && t.generation == s.generation &&
      t.resolver == s.resolver && t.versions == s.versions &&
      |t.threads| == |s.threads| && t.threads[i].gen <= s.generation &&
      forall j :: 0 <= j < |s.threads| && j != i ==> t.threads[j] == s.threads[j]
  {
  }

  /**
   * In every reachable state: once a listener has recorded the current generation, and no
   * publication is half done, no datagram it holds comes from an allowed sender.
   */
  lemma NoLostReplay(cfg: Config, states: seq<State>, steps: seq<Step>, i: nat, x: Item)
    requires Run(cfg, states, steps)
    requires var s := states[|steps|];
      i < |s.threads| && x in s.threads[i].items && !s.threads[i].pc.Releasing? &&
      s.threads[i].gen == s.generation && s.resolver != PublishGeneration
    ensures !Allows(cfg, states[|steps|].allowed, x.sender)
  {
    RunWatched(cfg, states, steps);
    var s := states[|steps|];
    hide Allows;
    assert RefusedSince(cfg, s.versions, s.threads[i].gen, x.sender);
  }

  lemma {:induction false} RunWatched(cfg: Config, states: seq<State>, steps: seq<Step>)
    requires Run(cfg, states, steps)
    ensures Watched(cfg, states[|steps|])
  {
    if |steps| == 0 {
      assert Dynamic(cfg.hosts, map[]) == {};
    } else {
      hide Watched, Next, Initial;
      var n := |steps| - 1;
      RunWatched(cfg, states[..n + 1], steps[..n]);
      StepWatched(cfg, states[n], steps[n]);
    }
  }

  // ---- every generation is noticed ----------------------------------------------------------------------

  lemma ActNotices(cfg: Config, s: State, i: nat, a: Action, g: nat)
    requires i < |s.threads| && CanAct(s.threads[i], a) && |cfg.hosts| > 0 && s.generation >= g
    requires a.Check? || s.threads[i].pc.Noticed? || s.threads[i].gen >= g
    ensures var l := ActOn(cfg, s, i, a).threads[i]; l.pc.Noticed? || l.gen >= g
  {
    hide Expire, HeldAdd, IngestOne, MeetsFullQueue, Allows, Took;
  }

  lemma StepNotices(cfg: Config, s: State, step: Step, i: nat, g: nat)
    requires CanStep(cfg, s, step) && i < |s.threads| && |cfg.hosts| > 0 && s.generation >= g
    requires step == Act(i, Check) || s.threads[i].pc.Noticed? || s.threads[i].gen >= g
    ensures var t := Next(cfg, s, step);
      i < |t.threads| && t.generation >= g && (t.threads[i].pc.Noticed? || t.threads[i].gen >= g)
  {
    match step
    case Act(k, a) =>
      OwnThreadOnly(cfg, s, k, a);
      GenerationKept(cfg, s, k, a);
      if k == i {
        ActNotices(cfg, s, i, a, g);
      }
      hide ActOn;
    case _ => hide ActOn;
  }

  lemma GenerationKept(cfg: Config, s: State, i: nat, a: Action)
    requires i < |s.threads| && CanAct(s.threads[i], a)
    ensures ActOn(cfg, s, i, a).generation == s.generation
  {
    hide Expire, HeldAdd, IngestOne, MeetsFullQueue, Allows, Took;
  }

  /**
   * Once a listener has checked, it has recorded at least the generation that was current then
   * by the time it does anything but start its release.
   */
  lemma {:induction false} ChecksNotice(cfg: Config, states: seq<State>, steps: seq<Step>, i: nat, j: nat)
    requires Run(cfg, states, steps) && |cfg.hosts| > 0
    requires j < |steps| && steps[j] == Act(i, Check)
    ensures var s := states[|steps|];
      i < |s.threads| && s.generation >= states[j].generation &&
      (s.threads[i].pc.Noticed? || s.threads[i].gen >= states[j].generation)
  {
    hide Next, Initial;
    var n := |steps| - 1;
    if j < n {
      ChecksNotice(cfg, states[..n + 1], steps[..n], i, j);
    }
    StepNotices(cfg, states[n], steps[n], i, states[j].generation);
  }

  // ---- what is allowed ----------------------------------------------------------------------------------

  /** The known addresses are those of the rounds so far, published or about to be. */
  ghost predicate Learned(cfg: Config, s: State) {
    Known(cfg.hosts, s.answers) == if s.resolver.PublishResolved? then s.resolver.known else s.resolved
  }

  lemma StepLearned(cfg: Config, s: State, step: Step)
    requires Learned(cfg, s) && CanStep(cfg, s, step)
    ensures Learned(cfg, Next(cfg, s, step))
  {
    hide Known, News, Learn;
    match step
    case EndRound(answer) =>
      KnownNext(cfg.hosts, s.answers, answer);
      if !News(s.resolved, cfg.hosts, answer, |cfg.hosts|) {
        NoNewsNoChange(s.resolved, cfg.hosts, answer, |cfg.hosts|);
      }
    case Act(i, a) => ActLeaves(cfg, s, i, a);
    case _ =>
  }

  lemma ActLeaves(cfg: Config, s: State, i: nat, a: Action)
    requires i < |s.threads| && CanAct(s.threads[i], a)
    ensures var t := ActOn(cfg, s, i, a);
      t.resolved == s.resolved && t.resolver == s.resolver && t.answers == s.answers
  {
    hide Allows, Expire, HeldAdd, IngestOne, MeetsFullQueue;
  }

  lemma {:induction false} RunLearned(cfg: Config, states: seq<State>, steps: seq<Step>)
    requires Run(cfg, states, steps)
    ensures Learned(cfg, states[|steps|])
  {
    if |steps| > 0 {
      hide Learned, Next, Initial;
      var n := |steps| - 1;
      RunLearned(cfg, states[..n + 1], steps[..n]);
      StepLearned(cfg, states[n], steps[n]);
    }
  }

  /**
   * In every reachable state in which no publication of known addresses is under way, the allowed
   * networks are the literal ones and those of each host's last successful answer.
   */
  lemma AllowedExactly(cfg: Config, states: seq<State>, steps: seq<Step>, net: Net)
    requires Run(cfg, states, steps)
    requires !states[|steps|].resolver.PublishResolved? && states[|steps|].resolver != PublishAllowed
    ensures net in states[|steps|].allowed <==>
      net in Literals(cfg.nets) || Answered(cfg.hosts, states[|steps|].answers, net)
  {
    RunWatched(cfg, states, steps);
    RunLearned(cfg, states, steps);
    hide Run, Literals, Answered, Dynamic, Known;
    DynamicIsAnswered(cfg.hosts, states[|steps|].answers, net);
  }

  /** So a sender is allowed then exactly when a configured network or some host's last answer has its address. */
  lemma AllowsExactly(cfg: Config, states: seq<State>, steps: seq<Step>, sender: string)
    requires Run(cfg, states, steps)
    requires !states[|steps|].resolver.PublishResolved? && states[|steps|].resolver != PublishAllowed
    ensures Allows(cfg, states[|steps|].allowed, sender) <==>
      OnTheList(cfg.env, cfg.nets, cfg.hosts, states[|steps|].answers, sender)
  {
    var s := states[|steps|];
    hide Run, Literals, Answered, Admits, OnTheList;
    forall net
      ensures net in s.allowed <==> net in Literals(cfg.nets) || Answered(cfg.hosts, s.answers, net)
    {
      AllowedExactly(cfg, states, steps, net);
    }
    AdmitsExactly(cfg.env, cfg.nets, cfg.hosts, s.answers, s.allowed, sender);
  }

  // ---- nothing gets in unadmitted ---------------------------------------------------------------------

  /** Has an allowed set at least as new as generation g admitted the sender? */
  ghost predicate AdmittedSince(cfg: Config, versions: seq<set<Net>>, g: nat, sender: string) {
    exists v :: g <= v < |versions| && Allows(cfg, versions[v], sender)
  }

  ghost predicate AllAdmitted(cfg: Config, versions: seq<set<Net>>, g: nat, items: seq<Item>) {
    forall x :: x in items ==> AdmittedSince(cfg, versions, g, x.sender)
  }

  /** What a listener ingests or replays was admitted by a set at least as new as the generation it has recorded. */
  ghost predicate Screened(cfg: Config, versions: seq<set<Net>>, l: Thread) {
    (l.pc.Releasing? ==> AllAdmitted(cfg, versions, l.gen, l.pc.out)) &&
    (l.pc.Replaying? ==> AllAdmitted(cfg, versions, l.gen, l.pc.left)) &&
    (l.pc.Accepted? ==> AdmittedSince(cfg, versions, l.gen, l.pc.m.sender))
  }

  ghost predicate AllScreened(cfg: Config, s: State) {
    forall i :: 0 <= i < |s.threads| ==> Screened(cfg, s.versions, s.threads[i])
  }

  lemma AdmittedNow(cfg: Config, s: State, g: nat, sender: string)
    requires Versioned(cfg, s) && g <= s.generation && Allows(cfg, s.allowed, sender)
    ensures AdmittedSince(cfg, s.versions, g, sender)
  {
    assert Allows(cfg, s.versions[|s.versions| - 1], sender);
  }

  lemma ActScreened(cfg: Config, s: State, i: nat, a: Action)
    requires Versioned(cfg, s) && i < |s.threads| && CanAct(s.threads[i], a)
    requires s.threads[i].gen <= s.generation && Screened(cfg, s.versions, s.threads[i])
    ensures Screened(cfg, s.versions, ActOn(cfg, s, i, a).threads[i])
  {
    hide AdmittedSince, Expire, IngestOne, HeldAdd, Allows, MeetsFullQueue, Took;
    var l := s.threads[i];
    match a
    case Judge =>
      var x := l.pc.todo[0];
      if Allows(cfg, s.allowed, x.sender) {
        AdmittedNow(cfg, s, l.gen, x.sender);
      }
    case Filter =>
      if Allows(cfg, s.allowed, l.pc.m.sender) {
        AdmittedNow(cfg, s, l.gen, l.pc.m.sender);
      }
    case _ =>
  }

  lemma ScreenedLater(cfg: Config, versions: seq<set<Net>>, allowed: set<Net>, l: Thread)
    requires Screened(cfg, versions, l)
    ensures Screened(cfg, versions + [allowed], l)
  {
    forall x | AdmittedSince(cfg, versions, l.gen, x)
      ensures AdmittedSince(cfg, versions + [allowed], l.gen, x)
    {
      var v :| l.gen <= v < |versions| && Allows(cfg, versions[v], x);
      assert (versions + [allowed])[v] == versions[v];
    }
    hide AdmittedSince;
  }

  lemma StepScreened(cfg: Config, s: State, step: Step)
    requires Watched(cfg, s) && AllScreened(cfg, s) && CanStep(cfg, s, step)
    ensures AllScreened(cfg, Next(cfg, s, step))
  {
    var t := Next(cfg, s, step);
    match step
    case Act(i, a) =>
      ActScreened(cfg, s, i, a);
      ActFrame(cfg, s, i, a);
      hide Screened, ActOn;
    case Publish =>
      forall i | 0 <= i < |s.threads|
        ensures Screened(cfg, t.versions, t.threads[i])
      {
        if s.resolver == PublishAllowed {
          ScreenedLater(cfg, s.versions, t.allowed, s.threads[i]);
        }
      }
    case _ =>
  }

  lemma {:induction false} RunScreened(cfg: Config, states: seq<State>, steps: seq<Step>)
    requires Run(cfg, states, steps)
    ensures AllScreened(cfg, states[|steps|])
  {
    if |steps| > 0 {
      hide AllScreened, Watched, Next, Initial;
      var n := |steps| - 1;
      RunWatched(cfg, states[..n + 1], steps[..n]);
      RunScreened(cfg, states[..n + 1], steps[..n]);
      StepScreened(cfg, states[n], steps[n]);
    }
  }

  /** A datagram is only ever ingested or replayed after a recent enough allowed set admitted its sender. */
  lemma NothingUnadmitted(cfg: Config, states: seq<State>, steps: seq<Step>, i: nat, a: Action)
    requires Run(cfg, states, steps)
    requires i < |states[|steps|].threads| && CanAct(states[|steps|].threads[i], a) && (a.ReplayOne? || a.Ingest?)
    ensures var l := states[|steps|].threads[i];
      AdmittedSince(cfg, states[|steps|].versions, l.gen, if a.Ingest? then l.pc.m.sender else l.pc.left[0].sender)
  {
    RunScreened(cfg, states, steps);
    hide AdmittedSince, Run;
    assert Screened(cfg, states[|steps|].versions, states[|steps|].threads[i]);
  }

  // ---- what a listener carries ------------------------------------------------------------------------

  /** The held datagrams of a listener, wherever a release has got to with them. */
  function Carried(l: Thread): multiset<Item> {
    match l.pc
    case Releasing(_, todo, keep, out) => multiset(todo) + multiset(keep) + multiset(out)
    case Replaying(_, _, left, _) => multiset(l.items) + multiset(left)
    case _ => multiset(l.items)
  }

  /** A release in progress never holds more than the deque did. */
  ghost predicate Roomy(l: Thread) {
    |l.items| <= HELD_MAX && (l.pc.Releasing? ==> |l.pc.todo| + |l.pc.keep| + |l.pc.out| <= HELD_MAX)
  }

  /** What is still carried after a step: less only what gets too old, is pushed out, or is replayed. */
  function CarriedAfter(cfg: Config, s: State, i: nat, a: Action): multiset<Item>
    requires i < |s.threads| && CanAct(s.threads[i], a)
  {
    var l := s.threads[i];
    match a
    case Record(now) => multiset(Expire(l.items, now))
    case Hold(now) => multiset(HeldAdd(l.items, now, l.pc.m.sender, l.pc.m.data))
    case ReplayOne =>
      if MeetsFullQueue(cfg, s.tally, l.pc.left[0].data) then Carried(l)
      else multiset(l.items) + multiset(l.pc.left[1..])
    case CountFull => if l.pc.Replaying? then multiset(l.items) + multiset(l.pc.left[1..]) else Carried(l)
    case _ => Carried(l)
  }

  /**
   * A held datagram leaves its listener only by getting too old, by being pushed out of a full
   * deque when another one comes in, or by being replayed.
   */
  lemma ActCarries(cfg: Config, s: State, i: nat, a: Action)
    requires i < |s.threads| && CanAct(s.threads[i], a) && Roomy(s.threads[i])
    ensures Carried(ActOn(cfg, s, i, a).threads[i]) == CarriedAfter(cfg, s, i, a)
  {
    hide Carried, ActOn, Roomy, Expire, MeetsFullQueue, HeldAdd;
    match a
    case Judge => JudgeCarries(cfg, s, i);
    case Finish => FinishCarries(cfg, s, i);
    case ReplayOne => ReplayCarries(cfg, s, i);
    case CountFull => FullCarries(cfg, s, i);
    case _ => QuietCarries(cfg, s, i, a);
  }

  lemma ReplayCarries(cfg: Config, s: State, i: nat)
    requires i < |s.threads| && CanAct(s.threads[i], ReplayOne)
    ensures Carried(ActOn(cfg, s, i, ReplayOne).threads[i]) == CarriedAfter(cfg, s, i, ReplayOne)
  {
    hide IngestOne, MeetsFullQueue, Carried;
    var l := s.threads[i];
    var Replaying(d, out, left, full) := l.pc;
    var after := if MeetsFullQueue(cfg, s.tally, left[0].data) then left else left[1..];
    ReplayLeft(l, d, out, left, full);
    ReplayLeft(ActOn(cfg, s, i, ReplayOne).threads[i], d, out, after, MeetsFullQueue(cfg, s.tally, left[0].data));
  }

  lemma ReplayLeft(l: Thread, d: Option<Msg>, out: seq<Item>, left: seq<Item>, full: bool)
    ensures l.pc == Replaying(d, out, left, full) ==> Carried(l) == multiset(l.items) + multiset(left)
  {
  }

  lemma FullCarries(cfg: Config, s: State, i: nat)
    requires i < |s.threads| && CanAct(s.threads[i], CountFull)
    ensures Carried(ActOn(cfg, s, i, CountFull).threads[i]) == CarriedAfter(cfg, s, i, CountFull)
  {
  }

  /** The steps that leave the held datagrams alone. */
  predicate Quiet(a: Action) {
    a.Receive? || a.Timeout? || a.Check? || a.EndReplay? || a.Correct? || a.Filter? || a.Reject? || a.Kick? || a.Ingest?
  }

  lemma QuietItems(cfg: Config, s: State, i: nat, a: Action)
    requires i < |s.threads| && CanAct(s.threads[i], a) && Quiet(a)
    ensures var l, l' := s.threads[i], ActOn(cfg, s, i, a).threads[i];
      l'.items == l.items && !l'.pc.Releasing? && !l'.pc.Replaying? &&
      !l.pc.Releasing? && (l.pc.Replaying? ==> l.pc.left == [])
  {
    hide IngestOne, MeetsFullQueue, Allows;
  }

  lemma QuietCarries(cfg: Config, s: State, i: nat, a: Action)
    requires i < |s.threads| && CanAct(s.threads[i], a) && (Quiet(a) || a.Record? || a.Hold?)
    ensures Carried(ActOn(cfg, s, i, a).threads[i]) == CarriedAfter(cfg, s, i, a)
  {
    hide Expire, HeldAdd;
    if Quiet(a) {
      QuietItems(cfg, s, i, a);
      hide ActOn;
    } else {
      hide IngestOne, MeetsFullQueue, Allows;
    }
  }

  lemma JudgeCarries(cfg: Config, s: State, i: nat)
    requires i < |s.threads| && CanAct(s.threads[i], Judge)
    ensures Carried(ActOn(cfg, s, i, Judge).threads[i]) == Carried(s.threads[i])
  {
    hide Allows, Carried;
    var l := s.threads[i];
    var Releasing(d, todo, keep, out) := l.pc;
    var l' := ActOn(cfg, s, i, Judge).threads[i];
    assert l' == l.(pc := Releasing(d, todo[1..], keep + [todo[0]], out)) ||
           l' == l.(pc := Releasing(d, todo[1..], keep, out + [todo[0]]));
    hide ActOn, CanAct;
    FirstMoves(l, d, todo, keep, out);
  }

  lemma FirstMoves(l: Thread, d: Option<Msg>, todo: seq<Item>, keep: seq<Item>, out: seq<Item>)
    requires |todo| > 0 && l.pc == Releasing(d, todo, keep, out)
    ensures Carried(l.(pc := Releasing(d, todo[1..], keep + [todo[0]], out))) == Carried(l)
    ensures Carried(l.(pc := Releasing(d, todo[1..], keep, out + [todo[0]]))) == Carried(l)
  {
    First(todo);
  }

  lemma First(items: seq<Item>)
    requires |items| > 0
    ensures multiset(items) == multiset{items[0]} + multiset(items[1..])
  {
    assert items == [items[0]] + items[1..];
  }

  lemma FinishCarries(cfg: Config, s: State, i: nat)
    requires i < |s.threads| && CanAct(s.threads[i], Finish) && Roomy(s.threads[i])
    ensures Carried(ActOn(cfg, s, i, Finish).threads[i]) == Carried(s.threads[i])
  {
  }

  // ---- conservation -----------------------------------------------------------------------------------

  /** The datagram a listener has in hand, received but not counted anywhere yet. */
  function Hand(l: Thread): nat {
    match l.pc
    case Checking(d) => if d.Some? then 1 else 0
    case Noticed(d) => if d.Some? then 1 else 0
    case Releasing(d, _, _, _) => if d.Some? then 1 else 0
    case Replaying(d, _, _, _) => if d.Some? then 1 else 0
    case Correcting(d, _) => if d.Some? then 1 else 0
    case Filtering(_) => 1
    case Refused(_) => 1
    case Accepted(_, _) => 1
    case _ => 0
  }

  /** Datagrams a replay has ingested again while they still count as rejected. */
  function Owed(l: Thread): int {
    match l.pc
    case Replaying(_, out, left, _) => |out| - |left|
    case Correcting(_, n) => n
    case _ => 0
  }

  /** Datagrams of this listener that the rejected counter must still cover. */
  function Cover(l: Thread): nat {
    match l.pc
    case Releasing(_, todo, keep, out) => |todo| + |keep| + |out|
    case Replaying(_, out, _, _) => |l.items| + |out|
    case Correcting(_, n) => |l.items| + n
    case Holding(_) => |l.items| + 1
    case _ => |l.items|
  }

  /** A datagram that has met a full queue and is not counted as dropped yet. */
  function Stuck(l: Thread): int {
    if (l.pc.Replaying? || l.pc.Accepted?) && l.pc.full then 1 else 0
  }

  datatype Measure = InHand | InDebt | InCover | InLimbo

  function Value(m: Measure, l: Thread): int {
    match m
    case InHand => Hand(l)
    case InDebt => Owed(l)
    case InCover => Cover(l)
    case InLimbo => Stuck(l)
  }

  function Sum(threads: seq<Thread>, m: Measure): int {
    if |threads| == 0 then 0 else Sum(threads[..|threads| - 1], m) + Value(m, threads[|threads| - 1])
  }

  lemma {:induction false} SumUpdate(threads: seq<Thread>, i: nat, l: Thread, m: Measure)
    requires i < |threads|
    ensures Sum(threads[i := l], m) == Sum(threads, m) - Value(m, threads[i]) + Value(m, l)
  {
    var n := |threads| - 1;
    if i < n {
      SumUpdate(threads[..n], i, l, m);
      assert threads[i := l][..n] == threads[..n][i := l];
    } else {
      assert threads[i := l][..n] == threads[..n];
    }
  }

  lemma {:induction false} SumAtLeast(threads: seq<Thread>, i: nat)
    requires i < |threads|
    ensures Sum(threads, InCover) >= Cover(threads[i])
  {
    var n := |threads| - 1;
    if i < n {
      SumAtLeast(threads[..n], i);
    } else {
      SumNonNegative(threads[..n]);
    }
  }

  lemma {:induction false} SumNonNegative(threads: seq<Thread>)
    ensures Sum(threads, InCover) >= 0
  {
    if |threads| > 0 {
      SumNonNegative(threads[..|threads| - 1]);
    }
  }

  /** Every datagram ever received is in exactly one place. */
  ghost predicate Conserved(s: State) {
    |s.received| == Sum(s.threads, InHand) + |s.tally.queue| + |s.events| + |s.unparsed| +
      |s.storedEvents| + |s.storedUnparsed| + s.tally.ignored + s.tally.dropped + s.rejected - Sum(s.threads, InDebt)
  }

  /** The rejected counter covers everything held, released or owed. */
  ghost predicate Covered(s: State) {
    s.rejected >= Sum(s.threads, InCover)
  }

  ghost predicate Bounds(cfg: Config, s: State) {
    (cfg.capacity > 0 ==> |s.tally.queue| <= cfg.capacity) &&
    (forall i :: 0 <= i < |s.threads| ==> Roomy(s.threads[i]))
  }

  ghost predicate Accounted(cfg: Config, s: State) {
    Conserved(s) && Covered(s) && Bounds(cfg, s)
  }

  /** What a step of listener i may change, and that it is balanced. */
  ghost predicate Balanced(s: State, t: State, i: nat)
    requires i < |s.threads| && i < |t.threads|
  {
    t.threads == s.threads[i := t.threads[i]] &&
    t.events == s.events && t.unparsed == s.unparsed &&
    t.storedEvents == s.storedEvents && t.storedUnparsed == s.storedUnparsed &&
    |t.received| - |s.received| ==
      Hand(t.threads[i]) - Hand(s.threads[i]) + |t.tally.queue| - |s.tally.queue| + t.tally.ignored - s.tally.ignored +
      t.tally.dropped - s.tally.dropped + t.rejected - s.rejected - (Owed(t.threads[i]) - Owed(s.threads[i])) &&
    t.rejected - s.rejected >= Cover(t.threads[i]) - Cover(s.threads[i])
  }

  lemma BalancedAccounted(s: State, t: State, i: nat)
    requires i < |s.threads| && i < |t.threads| && Balanced(s, t, i) && Conserved(s) && Covered(s)
    ensures Conserved(t) && Covered(t)
  {
    hide Hand, Owed, Cover;
    SumUpdate(s.threads, i, t.threads[i], InHand);
    SumUpdate(s.threads, i, t.threads[i], InDebt);
    SumUpdate(s.threads, i, t.threads[i], InCover);
  }

  /** Every step of a listener is balanced; taking replayed datagrams off the counter never clips. */
  lemma ActBalanced(cfg: Config, s: State, i: nat, a: Action)
    requires i < |s.threads| && CanAct(s.threads[i], a) && Covered(s)
    ensures var t := ActOn(cfg, s, i, a); i < |t.threads| && Balanced(s, t, i)
    ensures a == Correct ==> ActOn(cfg, s, i, a).rejected == s.rejected - s.threads[i].pc.n
  {
    hide Balanced;
    match a
    case ReplayOne => IngestBalanced(cfg, s, i, a);
    case Ingest(now) => IngestBalanced(cfg, s, i, a);
    case Correct => CorrectBalanced(cfg, s, i);
    case Receive(_) => ReceiveBalanced(cfg, s, i, a);
    case Filter => ReceiveBalanced(cfg, s, i, a);
    case Reject => ReceiveBalanced(cfg, s, i, a);
    case Hold(now) => ReceiveBalanced(cfg, s, i, a);
    case _ => ReleaseBalanced(cfg, s, i, a);
  }

  /** Replayed datagrams leave the rejected counter, which covers them. */
  lemma CorrectBalanced(cfg: Config, s: State, i: nat)
    requires i < |s.threads| && CanAct(s.threads[i], Correct) && Covered(s)
    ensures var t := ActOn(cfg, s, i, Correct);
      i < |t.threads| && Balanced(s, t, i) && t.rejected == s.rejected - s.threads[i].pc.n
  {
    SumAtLeast(s.threads, i);
    hide Sum;
  }

  /** From receiving a datagram to holding it. */
  lemma ReceiveBalanced(cfg: Config, s: State, i: nat, a: Action)
    requires i < |s.threads| && CanAct(s.threads[i], a) && (a.Receive? || a.Filter? || a.Reject? || a.Hold?)
    ensures var t := ActOn(cfg, s, i, a); i < |t.threads| && Balanced(s, t, i)
  {
    hide Allows, Expire;
    if a.Hold? {
      ExpireMembers(s.threads[i].items, a.now);
    }
  }

  /** From noticing a new generation to the end of the replay, and the quiet steps. */
  lemma ReleaseBalanced(cfg: Config, s: State, i: nat, a: Action)
    requires i < |s.threads| && CanAct(s.threads[i], a)
    requires a.Timeout? || a.Check? || a.Record? || a.Judge? || a.Finish? || a.CountFull? || a.EndReplay? || a.Kick?
    ensures var t := ActOn(cfg, s, i, a); i < |t.threads| && Balanced(s, t, i)
  {
    hide Allows, Expire;
    if a.Record? {
      ExpireMembers(s.threads[i].items, a.now);
    }
  }

  lemma IngestBalanced(cfg: Config, s: State, i: nat, a: Action)
    requires i < |s.threads| && CanAct(s.threads[i], a) && (a.ReplayOne? || a.Ingest?)
    ensures var t := ActOn(cfg, s, i, a); i < |t.threads| && Balanced(s, t, i)
  {
    hide Sum;
  }

  lemma ActRoomy(cfg: Config, s: State, i: nat, a: Action)
    requires i < |s.threads| && CanAct(s.threads[i], a) && Roomy(s.threads[i])
    ensures Roomy(ActOn(cfg, s, i, a).threads[i])
  {
    hide Allows, Expire, IngestOne, MeetsFullQueue;
    if a.Record? {
      ExpireMembers(s.threads[i].items, a.now);
    }
  }

  lemma ActBounds(cfg: Config, s: State, i: nat, a: Action)
    requires i < |s.threads| && CanAct(s.threads[i], a) && Bounds(cfg, s)
    ensures Bounds(cfg, ActOn(cfg, s, i, a))
  {
    ActRoomy(cfg, s, i, a);
    hide Allows, Expire, Roomy, HeldAdd, Bounded;
  }

  lemma StepAccounted(cfg: Config, s: State, step: Step)
    requires Accounted(cfg, s) && CanStep(cfg, s, step)
    ensures Accounted(cfg, Next(cfg, s, step))
  {
    match step
    case Act(i, a) =>
      hide Balanced, ActOn, Conserved, Covered, Bounds, CanAct;
      ActBalanced(cfg, s, i, a);
      BalancedAccounted(s, Next(cfg, s, step), i);
      ActBounds(cfg, s, i, a);
    case _ =>
      hide ActOn;
  }

  lemma {:induction false} InitialSums(threads: seq<Thread>)
    requires forall i :: 0 <= i < |threads| ==> threads[i] == Thread(0, [], Waiting)
    ensures Sum(threads, InHand) == 0 && Sum(threads, InDebt) == 0 && Sum(threads, InCover) == 0
  {
    if |threads| > 0 {
      InitialSums(threads[..|threads| - 1]);
    }
  }

  /** Nothing is lost or counted twice in any interleaving, and every buffer keeps its bound. */
  lemma {:induction false} RunAccounted(cfg: Config, states: seq<State>, steps: seq<Step>)
    requires Run(cfg, states, steps)
    ensures Accounted(cfg, states[|steps|])
  {
    if |steps| == 0 {
      InitialSums(states[0].threads);
    } else {
      hide Accounted, Next, Initial;
      var n := |steps| - 1;
      RunAccounted(cfg, states[..n + 1], steps[..n]);
      StepAccounted(cfg, states[n], steps[n]);
    }
  }

  /** Once the listeners rest, every datagram was stored, ignored, dropped or rejected, or is in the queue. */
  lemma {:induction false} RestingSums(threads: seq<Thread>)
    requires forall i :: 0 <= i < |threads| ==> threads[i].pc == Waiting
    ensures Sum(threads, InHand) == 0 && Sum(threads, InDebt) == 0
  {
    if |threads| > 0 {
      RestingSums(threads[..|threads| - 1]);
    }
  }

  /** After the final drain nothing is unaccounted for. */
  lemma DrainedIsComplete(cfg: Config, states: seq<State>, steps: seq<Step>)
    requires Run(cfg, states, steps)
    requires var s := states[|steps|];
      (forall i :: 0 <= i < |s.threads| ==> s.threads[i].pc == Waiting) &&
      s.tally.queue == [] && s.events == [] && s.unparsed == []
    ensures var s := states[|steps|];
      |s.received| == |s.storedEvents| + |s.storedUnparsed| + s.tally.ignored + s.tally.dropped + s.rejected
  {
    RunAccounted(cfg, states, steps);
    RestingSums(states[|steps|].threads);
  }

  // ---- what becomes of each kind ------------------------------------------------------------------------

  /** The rows of the datagrams that found room in the queue. */
  function RowsTaken(cfg: Config, lines: seq<Line>): seq<Parsed> {
    if |lines| == 0 then []
    else
      var x := lines[|lines| - 1];
      RowsTaken(cfg, lines[..|lines| - 1]) + if x.full then [] else RowOf(cfg.classify(x.text), x.ts, x.device, x.text)
  }

  /** How many of the datagrams are ignored. */
  function Ignorable(cfg: Config, lines: seq<Line>): nat {
    if |lines| == 0 then 0
    else
      Ignorable(cfg, lines[..|lines| - 1]) + if cfg.classify(lines[|lines| - 1].text) == Ignored then 1 else 0
  }

  /** How many rows found no room. */
  function Lost(cfg: Config, lines: seq<Line>): nat {
    if |lines| == 0 then 0
    else
      var x := lines[|lines| - 1];
      Lost(cfg, lines[..|lines| - 1]) + if x.full && cfg.classify(x.text) != Ignored then 1 else 0
  }

  /** The queue holds the last rows; those before it went to the two tables by kind. */
  ghost predicate Parted(rows: seq<Parsed>, queue: seq<Parsed>, events: seq<Parsed>, unparsed: seq<Parsed>) {
    var n := |rows| - |queue|;
    n >= 0 && queue == rows[n..] && events == Writer.Pick(rows[..n], true) && unparsed == Writer.Pick(rows[..n], false)
  }

  /**
   * In the order in which the datagrams were taken: the first rows have left the queue, the
   * events among them into the one table and its buffer, the unparsed lines into the other; the
   * queue holds the rest.  The counters hold the ignored and the lost ones.
   */
  ghost predicate Filed(cfg: Config, s: State) {
    Parted(RowsTaken(cfg, s.taken), s.tally.queue, s.storedEvents + s.events, s.storedUnparsed + s.unparsed) &&
    s.tally.ignored == Ignorable(cfg, s.taken) &&
    s.tally.dropped + Sum(s.threads, InLimbo) == Lost(cfg, s.taken)
  }

  lemma TakenPush(cfg: Config, lines: seq<Line>, x: Line)
    ensures RowsTaken(cfg, lines + [x]) ==
      RowsTaken(cfg, lines) + if x.full then [] else RowOf(cfg.classify(x.text), x.ts, x.device, x.text)
    ensures Ignorable(cfg, lines + [x]) == Ignorable(cfg, lines) + if cfg.classify(x.text) == Ignored then 1 else 0
    ensures Lost(cfg, lines + [x]) == Lost(cfg, lines) + if x.full && cfg.classify(x.text) != Ignored then 1 else 0
  {
    assert (lines + [x])[..|lines|] == lines;
  }

  /** A new row joins the queue. */
  lemma PartedPush(rows: seq<Parsed>, queue: seq<Parsed>, events: seq<Parsed>, unparsed: seq<Parsed>, row: seq<Parsed>)
    requires Parted(rows, queue, events, unparsed)
    ensures Parted(rows + row, queue + row, events, unparsed)
  {
    var n := |rows| - |queue|;
    assert (rows + row)[n..] == queue + row && (rows + row)[..n] == rows[..n];
  }

  /** The first row of the queue goes to its table. */
  lemma PartedTake(rows: seq<Parsed>, queue: seq<Parsed>, events: seq<Parsed>, unparsed: seq<Parsed>)
    requires Parted(rows, queue, events, unparsed) && |queue| > 0
    ensures queue[0].Ev? ==> Parted(rows, queue[1..], events + [queue[0]], unparsed)
    ensures !queue[0].Ev? ==> Parted(rows, queue[1..], events, unparsed + [queue[0]])
  {
    hide Writer.Pick;
    var n := |rows| - |queue|;
    assert rows[..n + 1] == rows[..n] + [queue[0]];
    Writer.OneDone(map[], rows[..n], queue[0]);
    assert queue[1..] == rows[n + 1..];
    assert events + [] == events && unparsed + [] == unparsed;
  }

  lemma TakeFiled(cfg: Config, s: State)
    requires Filed(cfg, s) && CanStep(cfg, s, Take)
    ensures Filed(cfg, Next(cfg, s, Take))
  {
    hide RowsTaken, Ignorable, Lost, Sum, Parted;
    var x := s.tally.queue[0];
    PartedTake(RowsTaken(cfg, s.taken), s.tally.queue, s.storedEvents + s.events, s.storedUnparsed + s.unparsed);
    assert (s.storedEvents + s.events) + [x] == s.storedEvents + (s.events + [x]);
    assert (s.storedUnparsed + s.unparsed) + [x] == s.storedUnparsed + (s.unparsed + [x]);
  }

  /** Steps of a listener that hand nothing to the parser. */
  lemma OtherFiled(cfg: Config, s: State, i: nat, a: Action)
    requires Filed(cfg, s) && i < |s.threads| && CanAct(s.threads[i], a) && !a.ReplayOne? && !a.Ingest?
    ensures Filed(cfg, ActOn(cfg, s, i, a))
  {
    hide RowsTaken, Ignorable, Lost, Sum, Parted, Allows, HeldAdd, Expire, IngestOne, MeetsFullQueue;
    var t := ActOn(cfg, s, i, a);
    SumUpdate(s.threads, i, t.threads[i], InLimbo);
  }

  /** What steps that do change. */
  lemma TakingStep(cfg: Config, s: State, i: nat, a: Action)
    requires i < |s.threads| && CanAct(s.threads[i], a) && (a.ReplayOne? || a.Ingest?)
    ensures var t := ActOn(cfg, s, i, a);
      |t.taken| == |s.taken| + 1 && t.taken[..|s.taken|] == s.taken &&
      t.storedEvents == s.storedEvents && t.storedUnparsed == s.storedUnparsed &&
      t.events == s.events && t.unparsed == s.unparsed && t.threads == s.threads[i := t.threads[i]] &&
      var x := t.taken[|s.taken|];
      var o := cfg.classify(x.text);
      t.tally.queue == s.tally.queue + (if x.full then [] else RowOf(o, x.ts, x.device, x.text)) &&
      t.tally.ignored == s.tally.ignored + (if o == Ignored then 1 else 0) && t.tally.dropped == s.tally.dropped &&
      Stuck(s.threads[i]) == 0 && Stuck(t.threads[i]) == if x.full && o != Ignored then 1 else 0
  {
    hide IngestOne, RowOf, HasRoom;
    var l := s.threads[i];
    if a.Ingest? {
      OneIngested(s.tally, cfg.capacity, cfg.classify(l.pc.m.data), a.now, cfg.device(i), l.pc.m.data);
    } else {
      var x := l.pc.left[0];
      OneIngested(s.tally, cfg.capacity, cfg.classify(x.data), x.ts, cfg.device(i), x.data);
    }
  }

  lemma OneIngested(t: Tally, capacity: nat, o: Outcome, ts: int, device: string, text: string)
    ensures HasRoom(t.queue, capacity) <==> !(capacity > 0 && |t.queue| >= capacity)
    ensures o == Ignored ==>
      IngestOne(t, capacity, o, ts, device, text) == t.(ignored := t.ignored + 1) && RowOf(o, ts, device, text) == []
    ensures o != Ignored && HasRoom(t.queue, capacity) ==>
      IngestOne(t, capacity, o, ts, device, text) == t.(queue := t.queue + RowOf(o, ts, device, text))
  {
  }

  lemma TakingFiled(cfg: Config, s: State, i: nat, a: Action)
    requires Filed(cfg, s) && i < |s.threads| && CanAct(s.threads[i], a) && (a.ReplayOne? || a.Ingest?)
    ensures Filed(cfg, ActOn(cfg, s, i, a))
  {
    hide RowsTaken, Ignorable, Lost, Sum, Parted, ActOn, CanAct, Stuck, RowOf;
    var t := ActOn(cfg, s, i, a);
    TakingStep(cfg, s, i, a);
    SumUpdate(s.threads, i, t.threads[i], InLimbo);
    var x := t.taken[|s.taken|];
    assert t.taken == s.taken + [x];
    TakenPush(cfg, s.taken, x);
    var row := if x.full then [] else RowOf(cfg.classify(x.text), x.ts, x.device, x.text);
    PartedPush(RowsTaken(cfg, s.taken), s.tally.queue, s.storedEvents + s.events, s.storedUnparsed + s.unparsed, row);
  }

  lemma StepFiled(cfg: Config, s: State, step: Step)
    requires Filed(cfg, s) && CanStep(cfg, s, step)
    ensures Filed(cfg, Next(cfg, s, step))
  {
    match step
    case Act(i, a) =>
      hide Filed, ActOn, CanAct;
      if a.ReplayOne? || a.Ingest? {
        TakingFiled(cfg, s, i, a);
      } else {
        OtherFiled(cfg, s, i, a);
      }
    case Take => TakeFiled(cfg, s);
    case _ =>
      hide ActOn;
  }

  /**
   * In every reachable state the rows of every datagram handed to the parser are, by kind and in
   * order, in the tables, the writer's buffers and the queue, or counted as ignored or dropped.
   */
  lemma {:induction false} RunFiled(cfg: Config, states: seq<State>, steps: seq<Step>)
    requires Run(cfg, states, steps)
    ensures Filed(cfg, states[|steps|])
  {
    hide Filed, Next, Initial;
    if |steps| == 0 {
      InitialFiled(cfg, states[0]);
    } else {
      var n := |steps| - 1;
      RunFiled(cfg, states[..n + 1], steps[..n]);
      StepFiled(cfg, states[n], steps[n]);
    }
  }

  lemma InitialFiled(cfg: Config, s: State)
    requires Initial(cfg, s)
    ensures Filed(cfg, s)
  {
    NobodyStuck(s.threads);
    hide Sum;
    assert Writer.Pick([], true) == [] && Writer.Pick([], false) == [];
  }

  lemma {:induction false} NobodyStuck(threads: seq<Thread>)
    requires forall i :: 0 <= i < |threads| ==> threads[i].pc == Waiting
    ensures Sum(threads, InLimbo) == 0
  {
    if |threads| > 0 {
      NobodyStuck(threads[..|threads| - 1]);
    }
  }

  /** After the final drain the tables hold the rows of every datagram that found room, in order. */
  lemma DrainedByKind(cfg: Config, states: seq<State>, steps: seq<Step>)
    requires Run(cfg, states, steps)
    requires var s := states[|steps|];
      (forall i :: 0 <= i < |s.threads| ==> s.threads[i].pc == Waiting) &&
      s.tally.queue == [] && s.events == [] && s.unparsed == []
    ensures var s := states[|steps|];
      s.storedEvents == Writer.Pick(RowsTaken(cfg, s.taken), true) &&
      s.storedUnparsed == Writer.Pick(RowsTaken(cfg, s.taken), false) &&
      s.tally.ignored == Ignorable(cfg, s.taken) && s.tally.dropped == Lost(cfg, s.taken)
  {
    var s := states[|steps|];
    RunFiled(cfg, states, steps);
    NobodyStuck(s.threads);
    hide Run, RowsTaken, Ignorable, Lost, Sum, Writer.Pick;
    var rows := RowsTaken(cfg, s.taken);
    assert rows[..|rows|] == rows;
    assert s.storedEvents + [] == s.storedEvents && s.storedUnparsed + [] == s.storedUnparsed;
  }

  // ---- where everything comes from ----------------------------------------------------------------------

  /** Did a datagram with these contents come in, or one that starts with these 4096 bytes, from this sender? */
  ghost predicate CameIn(received: seq<Msg>, sender: string, data: string) {
    exists k :: 0 <= k < |received| && received[k].sender == sender &&
      (data == received[k].data || (|received[k].data| > 4096 && data == received[k].data[..4096]))
  }

  ghost predicate AllCameIn(received: seq<Msg>, items: seq<Item>) {
    forall x :: x in items ==> CameIn(received, x.sender, x.data)
  }

  /** Is the datagram in hand one that came in? */
  ghost predicate InboxHand(received: seq<Msg>, l: Thread) {
    match l.pc
    case Checking(d) => d.Some? ==> d.value in received
    case Noticed(d) => d.Some? ==> d.value in received
    case Releasing(d, todo, keep, out) => d.Some? ==> d.value in received
    case Replaying(d, _, left, _) => d.Some? ==> d.value in received
    case Correcting(d, _) => d.Some? ==> d.value in received
    case Filtering(m) => m in received
    case Refused(m) => m in received
    case Holding(m) => m in received
    case Accepted(m, _) => m in received
    case _ => true
  }

  ghost predicate InboxHeld(received: seq<Msg>, l: Thread) {
    AllCameIn(received, l.items) &&
    (l.pc.Releasing? ==>
      AllCameIn(received, l.pc.todo) && AllCameIn(received, l.pc.keep) && AllCameIn(received, l.pc.out)) &&
    (l.pc.Replaying? ==> AllCameIn(received, l.pc.out) && AllCameIn(received, l.pc.left))
  }

  ghost predicate SomeoneSent(received: seq<Msg>, text: string) {
    exists sender :: CameIn(received, sender, text)
  }

  /** Nothing is made up: all datagrams held, in hand or handed to the parser came in. */
  ghost predicate Genuine(s: State) {
    (forall i :: 0 <= i < |s.threads| ==> InboxHand(s.received, s.threads[i]) && InboxHeld(s.received, s.threads[i])) &&
    forall x :: x in s.taken ==> SomeoneSent(s.received, x.text)
  }

  lemma CameInLater(received: seq<Msg>, msg: Msg, l: Thread)
    requires InboxHand(received, l) && InboxHeld(received, l)
    ensures InboxHand(received + [msg], l) && InboxHeld(received + [msg], l)
  {
    forall sender, data | CameIn(received, sender, data)
      ensures CameIn(received + [msg], sender, data)
    {
      StillCameIn(received, msg, sender, data);
    }
    hide CameIn;
  }

  lemma StillCameIn(received: seq<Msg>, msg: Msg, sender: string, data: string)
    requires CameIn(received, sender, data)
    ensures CameIn(received + [msg], sender, data)
  {
    var k :| 0 <= k < |received| && received[k].sender == sender &&
      (data == received[k].data || (|received[k].data| > 4096 && data == received[k].data[..4096]));
    assert (received + [msg])[k] == received[k];
  }

  lemma MessageCameIn(received: seq<Msg>, m: Msg)
    requires m in received
    ensures CameIn(received, m.sender, m.data) && CameIn(received, m.sender, Truncate(m.data))
  {
    var k :| 0 <= k < |received| && received[k] == m;
    assert received[k].sender == m.sender;
  }

  lemma HeldAddCameIn(received: seq<Msg>, items: seq<Item>, now: int, m: Msg)
    requires AllCameIn(received, items) && m in received
    ensures AllCameIn(received, HeldAdd(items, now, m.sender, m.data))
  {
    ExpireMembers(items, now);
    MessageCameIn(received, m);
    hide CameIn, Expire;
  }

  /** The own thread of a listener after its step. */
  lemma ActGenuine(cfg: Config, s: State, i: nat, a: Action)
    requires i < |s.threads| && CanAct(s.threads[i], a) && !a.Receive?
    requires InboxHand(s.received, s.threads[i]) && InboxHeld(s.received, s.threads[i])
    ensures var l := ActOn(cfg, s, i, a).threads[i]; InboxHand(s.received, l) && InboxHeld(s.received, l)
  {
    hide CameIn, Expire, HeldAdd, IngestOne, MeetsFullQueue, Allows, Took;
    var l := s.threads[i];
    match a
    case Hold(now) => HeldAddCameIn(s.received, l.items, now, l.pc.m);
    case Record(now) => ExpireMembers(l.items, now);
    case _ =>
  }

  /** What a step hands to the parser came in. */
  lemma TakenGenuine(cfg: Config, s: State, i: nat, a: Action)
    requires i < |s.threads| && CanAct(s.threads[i], a) && !a.Receive?
    requires InboxHand(s.received, s.threads[i]) && InboxHeld(s.received, s.threads[i])
    ensures var t := ActOn(cfg, s, i, a);
      t.received == s.received && forall x :: x in t.taken ==> x in s.taken || SomeoneSent(s.received, x.text)
  {
    hide CameIn, Expire, HeldAdd, IngestOne, MeetsFullQueue, Allows;
    var l := s.threads[i];
    if a.Ingest? {
      MessageCameIn(s.received, l.pc.m);
    } else if a.ReplayOne? {
      assert CameIn(s.received, l.pc.left[0].sender, l.pc.left[0].data);
    }
  }

  /** A datagram comes in. */
  lemma ReceiveGenuine(cfg: Config, s: State, i: nat, msg: Msg)
    requires Genuine(s) && i < |s.threads| && CanAct(s.threads[i], Receive(msg))
    ensures Genuine(ActOn(cfg, s, i, Receive(msg)))
  {
    hide CameIn;
    var t := ActOn(cfg, s, i, Receive(msg));
    forall j | 0 <= j < |s.threads|
      ensures InboxHand(t.received, t.threads[j]) && InboxHeld(t.received, t.threads[j])
    {
      CameInLater(s.received, msg, s.threads[j]);
    }
    forall x | x in s.taken
      ensures SomeoneSent(t.received, x.text)
    {
      var sender :| CameIn(s.received, sender, x.text);
      StillCameIn(s.received, msg, sender, x.text);
    }
  }

  lemma StepGenuine(cfg: Config, s: State, step: Step)
    requires Genuine(s) && CanStep(cfg, s, step)
    ensures Genuine(Next(cfg, s, step))
  {
    hide InboxHand, InboxHeld, SomeoneSent;
    match step
    case Act(i, a) =>
      if a.Receive? {
        ReceiveGenuine(cfg, s, i, a.msg);
      } else {
        ActGenuine(cfg, s, i, a);
        TakenGenuine(cfg, s, i, a);
        OwnThreadOnly(cfg, s, i, a);
      }
      hide ActOn, CanAct;
    case _ => hide ActOn;
  }

  lemma OwnThreadOnly(cfg: Config, s: State, i: nat, a: Action)
    requires i < |s.threads| && CanAct(s.threads[i], a)
    ensures var t := ActOn(cfg, s, i, a); t.threads == s.threads[i := t.threads[i]]
  {
    hide Expire, HeldAdd, IngestOne, MeetsFullQueue, Allows, Took;
  }

  /** In every reachable state, what is held or was handed to the parser is a datagram that came in. */
  lemma {:induction false} RunGenuine(cfg: Config, states: seq<State>, steps: seq<Step>)
    requires Run(cfg, states, steps)
    ensures Genuine(states[|steps|])
  {
    if |steps| > 0 {
      hide Genuine, Next, Initial;
      var n := |steps| - 1;
      RunGenuine(cfg, states[..n + 1], steps[..n]);
      StepGenuine(cfg, states[n], steps[n]);
    }
  }

  // ---- what is refused is held, and asks for a round ----------------------------------------------------

  /** Has the k-th step put this datagram behind the others that the listener holds? */
  ghost predicate PutBy(states: seq<State>, steps: seq<Step>, i: nat, m: Msg, k: nat)
    requires |states| == |steps| + 1 && k < |steps|
  {
    steps[k].Act? && steps[k].i == i && steps[k].action.Hold? && i < |states[k + 1].threads| &&
    var items := states[k + 1].threads[i].items;
    |items| > 0 && items[|items| - 1] ==
      Item(steps[k].action.now, m.sender, if |m.data| <= 4096 then m.data else m.data[..4096])
  }

  /** Is it about to be held, or has it been since step j? */
  ghost predicate HeldSince(states: seq<State>, steps: seq<Step>, i: nat, m: Msg, j: nat)
    requires |states| == |steps| + 1
  {
    var s := states[|steps|];
    i < |s.threads| &&
    (s.threads[i].pc == Holding(m) || exists k: nat :: j < k < |steps| && PutBy(states, steps, i, m, k))
  }

  lemma HoldPuts(cfg: Config, s: State, i: nat, now: int, m: Msg)
    requires i < |s.threads| && s.threads[i].pc == Holding(m)
    ensures var items := ActOn(cfg, s, i, Hold(now)).threads[i].items;
      |items| > 0 && items[|items| - 1] ==
        Item(now, m.sender, if |m.data| <= 4096 then m.data else m.data[..4096])
  {
    hide Expire;
  }

  /** A listener about to hold a datagram does nothing else first. */
  lemma StepHolds(cfg: Config, s: State, step: Step, i: nat, m: Msg)
    requires CanStep(cfg, s, step) && i < |s.threads| && s.threads[i].pc == Holding(m)
    ensures var t := Next(cfg, s, step);
      i < |t.threads| && (t.threads[i].pc == Holding(m) || (step.Act? && step.i == i && step.action.Hold?))
  {
    match step
    case Act(k, a) =>
      OwnThreadOnly(cfg, s, k, a);
      hide ActOn;
    case _ => hide ActOn;
  }

  lemma ThreadsStay(cfg: Config, s: State, step: Step)
    requires CanStep(cfg, s, step)
    ensures |Next(cfg, s, step).threads| == |s.threads|
  {
    match step
    case Act(k, a) =>
      OwnThreadOnly(cfg, s, k, a);
      hide ActOn;
    case _ => hide ActOn;
  }

  /** While host names are configured, a refused datagram is held before its listener does anything else. */
  lemma {:induction false} RefusedIsHeld(cfg: Config, states: seq<State>, steps: seq<Step>, i: nat, m: Msg, j: nat)
    requires Run(cfg, states, steps) && |cfg.hosts| > 0
    requires j < |steps| && steps[j] == Act(i, Reject)
    requires i < |states[j].threads| && states[j].threads[i].pc == Refused(m)
    ensures HeldSince(states, steps, i, m, j)
  {
    var n := |steps| - 1;
    var before, after := states[n], states[n + 1];
    assert CanStep(cfg, before, steps[n]) && after == Next(cfg, before, steps[n]);
    if j == n {
      hide Expire, HeldAdd, IngestOne, MeetsFullQueue, Allows, Took;
    } else {
      hide Next, CanStep, Initial, PutBy;
      RefusedIsHeld(cfg, states[..n + 1], steps[..n], i, m, j);
      ThreadsStay(cfg, before, steps[n]);
      if before.threads[i].pc == Holding(m) {
        StepHolds(cfg, before, steps[n], i, m);
        if after.threads[i].pc != Holding(m) {
          PutNow(cfg, states, steps, i, m);
        }
      } else {
        var k: nat :| j < k < n && PutBy(states[..n + 1], steps[..n], i, m, k);
        PutBefore(states, steps, i, m, k);
      }
    }
  }

  lemma PutNow(cfg: Config, states: seq<State>, steps: seq<Step>, i: nat, m: Msg)
    requires |states| == |steps| + 1 && |steps| > 0
    requires var n := |steps| - 1;
      CanStep(cfg, states[n], steps[n]) && states[n + 1] == Next(cfg, states[n], steps[n]) &&
      steps[n].Act? && steps[n].i == i && steps[n].action.Hold? &&
      i < |states[n].threads| && states[n].threads[i].pc == Holding(m)
    ensures PutBy(states, steps, i, m, |steps| - 1)
  {
    var n := |steps| - 1;
    HoldPuts(cfg, states[n], i, steps[n].action.now, m);
    OwnThreadOnly(cfg, states[n], i, steps[n].action);
    hide ActOn;
  }

  lemma PutBefore(states: seq<State>, steps: seq<Step>, i: nat, m: Msg, k: nat)
    requires |states| == |steps| + 1 && |steps| > 0 && k < |steps| - 1
    requires PutBy(states[..|steps|], steps[..|steps| - 1], i, m, k)
    ensures PutBy(states, steps, i, m, k)
  {
  }

  /** Then it asks for a round: a trigger has come after the holding once the listener is back at its socket. */
  lemma {:induction false} HeldIsTriggered(cfg: Config, states: seq<State>, steps: seq<Step>, i: nat, j: nat, now: int)
    requires Run(cfg, states, steps) && j < |steps| && steps[j] == Act(i, Hold(now))
    ensures var s := states[|steps|];
      i < |s.threads| && s.rounds >= states[j].rounds &&
      (s.threads[i].pc == Kicking || s.lastTrigger >= states[j].rounds)
  {
    var n := |steps| - 1;
    var before := states[n];
    assert CanStep(cfg, before, steps[n]) && states[n + 1] == Next(cfg, before, steps[n]);
    if j == n {
      hide Expire, HeldAdd, IngestOne, MeetsFullQueue, Allows, Took;
    } else {
      hide Next, CanStep, Initial;
      HeldIsTriggered(cfg, states[..n + 1], steps[..n], i, j, now);
      StepTriggers(cfg, before, steps[n], i, states[j].rounds);
    }
  }

  lemma StepTriggers(cfg: Config, s: State, step: Step, i: nat, r: int)
    requires CanStep(cfg, s, step) && i < |s.threads| && s.rounds >= r
    requires s.threads[i].pc == Kicking || s.lastTrigger >= r
    ensures var t := Next(cfg, s, step);
      i < |t.threads| && t.rounds >= r && (t.threads[i].pc == Kicking || t.lastTrigger >= r)
  {
    match step
    case Act(k, a) =>
      OwnThreadOnly(cfg, s, k, a);
      KickOnly(cfg, s, k, a);
      hide ActOn;
    case _ => hide ActOn;
  }

  /** The flag is set and the trigger noted by the one step, and the count of rounds by none, of a listener. */
  lemma KickOnly(cfg: Config, s: State, i: nat, a: Action)
    requires i < |s.threads| && CanAct(s.threads[i], a)
    ensures var t := ActOn(cfg, s, i, a);
      t.rounds == s.rounds && t.lastTrigger == (if a.Kick? then s.rounds else s.lastTrigger) &&
      t.kicked == (s.kicked || a.Kick?)
  {
    hide Expire, HeldAdd, IngestOne, MeetsFullQueue, Allows, Took;
  }

  // ---- triggers --------------------------------------------------------------------------------------

  /** Every trigger is followed by a round, or the round it asks for is still to come. */
  ghost predicate Served(s: State) {
    s.lastTrigger <= s.rounds && (s.lastTrigger < s.rounds || s.kicked || s.resolver == Woken)
  }

  lemma StepServed(cfg: Config, s: State, step: Step)
    requires Served(s) && CanStep(cfg, s, step)
    ensures Served(Next(cfg, s, step))
  {
    match step
    case Act(i, a) =>
    case _ => hide ActOn;
  }

  /** When the resolver sleeps unkicked, a round has started after the last trigger. */
  lemma {:induction false} NoLostTrigger(cfg: Config, states: seq<State>, steps: seq<Step>)
    requires Run(cfg, states, steps)
    ensures Served(states[|steps|])
    ensures states[|steps|].resolver == Sleeping && !states[|steps|].kicked ==>
      states[|steps|].lastTrigger < states[|steps|].rounds
  {
    if |steps| > 0 {
      hide Served, Next, Initial;
      var n := |steps| - 1;
      NoLostTrigger(cfg, states[..n + 1], steps[..n]);
      StepServed(cfg, states[n], steps[n]);
    }
  }
}
