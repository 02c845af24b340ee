/**
 * The syslog source allow-list: literal networks, and host names resolved in
 * rounds.
 */
module Sources {
  import opened Wrappers

  /** A configured network, or the network of one resolved address. */
  datatype Net = Literal(id: nat) | Address(addr: string)

  /**
   * How addresses are read: the normal form of a sender (an IPv4 address mapped into IPv6
   * read as IPv4), or None for text that is no address; and which addresses a configured
   * network contains.
   */
  datatype Env = Env(parse: string -> Option<string>, inside: (nat, string) -> bool)

  predicate Covers(env: Env, net: Net, addr: string) {
    match net
    case Literal(n) => env.inside(n, addr)
    case Address(a) => a == addr
  }

  /** An empty list means no filter. */
  predicate SourceAllowed(env: Env, sender: string, allowed: set<Net>) {
    allowed == {} ||
    (env.parse(sender).Some? && exists n :: n in allowed && Covers(env, n, env.parse(sender).value))
  }

  /** A configured filter whose names have not resolved yet allows nobody. */
  predicate Admits(env: Env, enabled: bool, allowed: set<Net>, sender: string) {
    !enabled || (allowed != {} && SourceAllowed(env, sender, allowed))
  }

  type Answers = map<string, set<string>>

  /** What the name service answers in one round; None when the lookup fails. */
  type Round = string -> Option<set<string>>

  function Literals(nets: seq<nat>): set<Net> {
    set i | 0 <= i < |nets| :: Literal(nets[i])
  }

  function Dynamic(hosts: seq<string>, resolved: Answers): set<Net> {
    set i, a | 0 <= i < |hosts| && hosts[i] in resolved && a in resolved[hosts[i]] :: Address(a)
  }

  /** The addresses known after a round has asked the first n hosts; a failed lookup keeps the old ones. */
  function Learn(resolved: Answers, hosts: seq<string>, answer: Round, n: nat): Answers
    requires n <= |hosts|
  {
    if n == 0 then resolved
    else
      var r := Learn(resolved, hosts, answer, n - 1);
      var h := hosts[n - 1];
      if answer(h).Some? then r[h := answer(h).value] else r
  }

  /** Does some host among the first n answer differently from what is known? */
  predicate News(resolved: Answers, hosts: seq<string>, answer: Round, n: nat)
    requires n <= |hosts|
  {
    exists i :: 0 <= i < n && answer(hosts[i]).Some? &&
      (hosts[i] !in resolved || resolved[hosts[i]] != answer(hosts[i]).value)
  }

  ghost predicate Distinct(hosts: seq<string>) {
    forall i, j :: 0 <= i < j < |hosts| ==> hosts[i] != hosts[j]
  }

  lemma {:induction false} LearnAt(resolved: Answers, hosts: seq<string>, answer: Round, n: nat, h: string)
    requires n <= |hosts|
    ensures var r := Learn(resolved, hosts, answer, n);
      if h in hosts[..n] && answer(h).Some? then h in r && r[h] == answer(h).value
      else (h in r <==> h in resolved) && (h in r ==> r[h] == resolved[h])
  {
    if n > 0 {
      LearnAt(resolved, hosts, answer, n - 1, h);
      assert hosts[..n] == hosts[..n - 1] + [hosts[n - 1]];
    }
  }

  /** Without news a round learns nothing. */
  lemma {:induction false} NoNewsNoChange(resolved: Answers, hosts: seq<string>, answer: Round, n: nat)
    requires n <= |hosts| && !News(resolved, hosts, answer, n)
    ensures Learn(resolved, hosts, answer, n) == resolved
  {
    if n > 0 {
      assert !News(resolved, hosts, answer, n - 1);
      NoNewsNoChange(resolved, hosts, answer, n - 1);
      var h := hosts[n - 1];
      assert answer(h).Some? ==> h in resolved && resolved[h] == answer(h).value;
    }
  }

  // ---- a run of rounds --------------------------------------------------------------------

  /** The known addresses after a sequence of rounds. */
  function Known(hosts: seq<string>, rounds: seq<Round>): Answers {
    if |rounds| == 0 then map[]
    else Learn(Known(hosts, rounds[..|rounds| - 1]), hosts, rounds[|rounds| - 1], |hosts|)
  }

  lemma KnownNext(hosts: seq<string>, rounds: seq<Round>, round: Round)
    ensures Known(hosts, rounds + [round]) == Learn(Known(hosts, rounds), hosts, round, |hosts|)
  {
    assert (rounds + [round])[..|rounds|] == rounds;
  }

  /** The last successful answer a host has given. */
  function LastAnswer(rounds: seq<Round>, h: string): Option<set<string>> {
    if |rounds| == 0 then None
    else if rounds[|rounds| - 1](h).Some? then rounds[|rounds| - 1](h)
    else LastAnswer(rounds[..|rounds| - 1], h)
  }

  /** Is the network one of an address in the last successful answer of a configured host? */
  ghost predicate Answered(hosts: seq<string>, rounds: seq<Round>, net: Net) {
    net.Address? && exists h :: h in hosts && LastAnswer(rounds, h).Some? && net.addr in LastAnswer(rounds, h).value
  }

  /** The resolved networks are exactly those of the last successful answers. */
  lemma DynamicIsAnswered(hosts: seq<string>, rounds: seq<Round>, net: Net)
    ensures net in Dynamic(hosts, Known(hosts, rounds)) <==> Answered(hosts, rounds, net)
  {
    hide Known, LastAnswer;
    if net in Dynamic(hosts, Known(hosts, rounds)) {
      var i :| 0 <= i < |hosts| && hosts[i] in Known(hosts, rounds) && net.addr in Known(hosts, rounds)[hosts[i]];
      KnownIsLastAnswer(hosts, rounds, hosts[i]);
    }
    if Answered(hosts, rounds, net) {
      var h :| h in hosts && LastAnswer(rounds, h).Some? && net.addr in LastAnswer(rounds, h).value;
      KnownIsLastAnswer(hosts, rounds, h);
      var i :| 0 <= i < |hosts| && hosts[i] == h;
    }
  }

  /** A failed lookup never locks a site out: each host keeps its last successful answer. */
  lemma {:induction false} KnownIsLastAnswer(hosts: seq<string>, rounds: seq<Round>, h: string)
    ensures var known := Known(hosts, rounds);
      if h in hosts && LastAnswer(rounds, h).Some? then h in known && known[h] == LastAnswer(rounds, h).value
      else h !in known
  {
    if |rounds| > 0 {
      var before := rounds[..|rounds| - 1];
      KnownIsLastAnswer(hosts, before, h);
      LearnAt(Known(hosts, before), hosts, rounds[|rounds| - 1], |hosts|, h);
      assert hosts[..|hosts|] == hosts;
    }
  }

  /** An address is allowed when a configured network or a host's last answer has it; no list at all allows everyone. */
  ghost predicate OnTheList(env: Env, nets: seq<nat>, hosts: seq<string>, rounds: seq<Round>, sender: string) {
    (nets == [] && hosts == []) ||
    (env.parse(sender).Some? &&
     var addr := env.parse(sender).value;
     (exists i :: 0 <= i < |nets| && env.inside(nets[i], addr)) ||
     (exists h :: h in hosts && LastAnswer(rounds, h).Some? && addr in LastAnswer(rounds, h).value))
  }

  /** While names are configured that have not resolved, and no network has the address, the sender is refused. */
  lemma AdmitsExactly(env: Env, nets: seq<nat>, hosts: seq<string>, rounds: seq<Round>, allowed: set<Net>,
                      sender: string)
    requires forall net :: net in allowed <==> net in Literals(nets) || Answered(hosts, rounds, net)
    ensures Admits(env, |nets| > 0 || |hosts| > 0, allowed, sender) <==> OnTheList(env, nets, hosts, rounds, sender)
  {
    hide LastAnswer;
    if env.parse(sender).Some? {
      var addr := env.parse(sender).value;
      if net :| net in allowed && Covers(env, net, addr) && net.Literal? {
        var i :| 0 <= i < |nets| && Literal(nets[i]) == net;
        assert env.inside(nets[i], addr);
      }
      if i :| 0 <= i < |nets| && env.inside(nets[i], addr) {
        assert Literal(nets[i]) in allowed && Covers(env, Literal(nets[i]), addr);
      }
      if h :| h in hosts && LastAnswer(rounds, h).Some? && addr in LastAnswer(rounds, h).value {
        assert Answered(hosts, rounds, Address(addr));
        assert Address(addr) in allowed && Covers(env, Address(addr), addr);
      }
    }
  }

  lemma NoHost(resolved: Answers, hosts: seq<string>, answer: Round)
    ensures Learn(resolved, hosts, answer, 0) == resolved && !News(resolved, hosts, answer, 0)
  {
  }

  /** One host more: its entry has not been touched in this round, so a different answer is news. */
  lemma NextHost(resolved: Answers, hosts: seq<string>, answer: Round, k: nat)
    requires Distinct(hosts) && k < |hosts|
    ensures var known, h := Learn(resolved, hosts, answer, k), hosts[k];
      var differs := answer(h).Some? && (h !in known || known[h] != answer(h).value);
      Learn(resolved, hosts, answer, k + 1) == (if differs then known[h := answer(h).value] else known) &&
      (News(resolved, hosts, answer, k + 1) <==> News(resolved, hosts, answer, k) || differs)
  {
    var known, h := Learn(resolved, hosts, answer, k), hosts[k];
    LearnAt(resolved, hosts, answer, k, h);
    assert forall i :: 0 <= i < k ==> hosts[..k][i] != h;
    assert h in known ==> known == known[h := known[h]];
  }

  // ---- the filter ---------------------------------------------------------------------------

  class SourceFilter {
    const nets: seq<nat>
    const hosts: seq<string>
    var resolved: Answers
    var allowed: set<Net>
    var generation: nat
    var failures: nat
    var rounds: nat
    var kicked: bool
    /** The answers of the rounds so far. */
    ghost var answers: seq<Round>

    /** What listeners match against is the literal networks and the known addresses. */
    ghost predicate Valid()
      reads this
    {
      Distinct(hosts) && allowed == Literals(nets) + Dynamic(hosts, resolved) && resolved == Known(hosts, answers)
    }

    constructor (nets: seq<nat>, hosts: seq<string>)
      requires Distinct(hosts)
      ensures Valid() && resolved == map[] && generation == 0 && failures == 0 && rounds == 0 && !kicked
      ensures answers == []
      ensures this.nets == nets && this.hosts == hosts
    {
      this.nets, this.hosts := nets, hosts;
      resolved, allowed := map[], Literals(nets);
      generation, failures, rounds, kicked, answers := 0, 0, 0, false, [];
      new;
      assert Dynamic(hosts, resolved) == {};
    }

    /** At any time between rounds the allowed networks are the literal ones and those last answered. */
    lemma AllowedExactly(net: Net)
      requires Valid()
      ensures net in allowed <==> net in Literals(nets) || Answered(hosts, answers, net)
    {
      hide Literals, Answered, Dynamic;
      DynamicIsAnswered(hosts, answers, net);
    }

    lemma AllowsExactly(env: Env, sender: string)
      requires Valid()
      ensures Allows(env, sender) <==> OnTheList(env, nets, hosts, answers, sender)
    {
      forall net
        ensures net in allowed <==> net in Literals(nets) || Answered(hosts, answers, net)
      {
        AllowedExactly(net);
      }
      hide Literals, Answered, Dynamic, Admits, OnTheList, Known;
      AdmitsExactly(env, nets, hosts, answers, allowed, sender);
    }

    predicate Allows(env: Env, sender: string)
      reads this
    {
      Admits(env, |nets| > 0 || |hosts| > 0, allowed, sender)
    }

    method Trigger()
      modifies this`kicked
      ensures kicked == (old(kicked) || |hosts| > 0)
    {
      if |hosts| > 0 {
        kicked := true;
      }
    }

    /** One resolution round; the resolver's answer to each name is a parameter. */
    method ResolveAll(answer: Round) returns (changed: bool)
      requires Valid()
      modifies this
      ensures Valid() && kicked == old(kicked) && answers == old(answers) + [answer]
      ensures resolved == Learn(old(resolved), hosts, answer, |hosts|)
      ensures changed <==> News(old(resolved), hosts, answer, |hosts|)
      ensures !changed ==> allowed == old(allowed)
      ensures generation == old(generation) + if changed then 1 else 0
      ensures rounds == old(rounds) + if |hosts| > 0 then 1 else 0
      ensures |hosts| == 0 ==> failures == old(failures)
      ensures |hosts| > 0 ==>
        failures == if exists i :: 0 <= i < |hosts| && answer(hosts[i]).None? then old(failures) + 1 else 0
    {
      hide Known, Learn, News, Dynamic, Literals, Distinct;
      changed := false;
      KnownNext(hosts, answers, answer);
      NoHost(resolved, hosts, answer);
      if |hosts| == 0 {
        answers := answers + [answer];
        return;
      }
      var known, failed := resolved, false;
      for k := 0 to |hosts|
        invariant Valid() && resolved == old(resolved) && allowed == old(allowed) && kicked == old(kicked)
        invariant generation == old(generation) && failures == old(failures) && rounds == old(rounds)
        invariant answers == old(answers)
        invariant known == Learn(resolved, hosts, answer, k)
        invariant changed <==> News(resolved, hosts, answer, k)
        invariant failed <==> exists i :: 0 <= i < k && answer(hosts[i]).None?
      {
        var host := hosts[k];
        NextHost(resolved, hosts, answer, k);
        var addrs := answer(host);
        if addrs.None? {
          failed := true;
        } else if host !in known || addrs.value != known[host] {
          known := known[host := addrs.value];
          changed := true;
        }
      }
      failures := if failed then failures + 1 else 0;
      rounds := rounds + 1;
      answers := answers + [answer];
      if changed {
        resolved := known;
        allowed := Literals(nets) + Dynamic(hosts, known);
        generation := generation + 1;
      } else {
        NoNewsNoChange(resolved, hosts, answer, |hosts|);
      }
    }
  }
}
