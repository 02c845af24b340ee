/**
 * The writer thread: it drains the shared queue into two buffers, stores them,
 * and publishes counters and per-device health.
 */
module Writer {
  import opened Wrappers
  import opened Listener

  datatype Health = Health(lastSeen: int, total: nat)

  datatype Published = Published(parsed: nat, unparsed: nat, dev: map<string, Health>,
                                 dropped: nat, ignored: nat, rejected: nat)

  /** The events of a list, or the unparsed lines. */
  function Pick(items: seq<Parsed>, ev: bool): seq<Parsed> {
    if |items| == 0 then []
    else Pick(items[..|items| - 1], ev) + Chosen(items[|items| - 1], ev)
  }

  function Chosen(x: Parsed, ev: bool): seq<Parsed> {
    if x.Ev? == ev then [x] else []
  }

  /** One table takes the events, the other everything else. */
  lemma {:induction false} PickKind(items: seq<Parsed>, ev: bool)
    ensures forall x :: x in Pick(items, ev) ==> x.Ev? == ev
  {
    if |items| > 0 {
      PickKind(items[..|items| - 1], ev);
    }
  }

  /** Every item goes to exactly one of the two tables. */
  lemma {:induction false} PickSplits(items: seq<Parsed>)
    ensures multiset(Pick(items, true)) + multiset(Pick(items, false)) == multiset(items)
  {
    if |items| > 0 {
      var rest := items[..|items| - 1];
      hide Pick;
      PickSplits(rest);
      PickLast(items, true);
      PickLast(items, false);
      Last(items);
    }
  }

  /** In the order of the list. */
  lemma {:induction false} PickConcat(a: seq<Parsed>, b: seq<Parsed>, ev: bool)
    ensures Pick(a + b, ev) == Pick(a, ev) + Pick(b, ev)
  {
    if |b| == 0 {
      assert a + b == a;
    } else {
      var rest, x := b[..|b| - 1], b[|b| - 1];
      PickConcat(a, rest, ev);
      assert (a + b)[..|a + b| - 1] == a + rest;
    }
  }

  lemma Last(items: seq<Parsed>)
    requires |items| > 0
    ensures multiset(items) == multiset(items[..|items| - 1]) + multiset{items[|items| - 1]}
  {
    assert items == items[..|items| - 1] + [items[|items| - 1]];
  }

  lemma PickLast(items: seq<Parsed>, ev: bool)
    requires |items| > 0
    ensures var rest, x := items[..|items| - 1], items[|items| - 1];
      multiset(Pick(items, ev)) == multiset(Pick(rest, ev)) + if x.Ev? == ev then multiset{x} else multiset{}
  {
  }

  /** The health table after events have been recorded on top of an earlier table. */
  function HealthAfter(dev: map<string, Health>, items: seq<Parsed>): map<string, Health> {
    if |items| == 0 then dev
    else
      Seen(HealthAfter(dev, items[..|items| - 1]), items[|items| - 1])
  }

  function Seen(d: map<string, Health>, x: Parsed): map<string, Health> {
    if x.Ev? then d[x.device := Health(x.ts, (if x.device in d then d[x.device].total else 0) + 1)] else d
  }

  function CountOf(items: seq<Parsed>, device: string): nat {
    if |items| == 0 then 0
    else
      var x := items[|items| - 1];
      CountOf(items[..|items| - 1], device) + if x.Ev? && x.device == device then 1 else 0
  }

  /** When a device sent its last event. */
  function LastSeen(items: seq<Parsed>, device: string): Option<int> {
    if |items| == 0 then None
    else
      var x := items[|items| - 1];
      if x.Ev? && x.device == device then Some(x.ts) else LastSeen(items[..|items| - 1], device)
  }

  /** A device's lifetime total grows by exactly its recorded events, and it was last seen at the last one. */
  lemma {:induction false} HealthCounts(dev: map<string, Health>, items: seq<Parsed>, device: string)
    ensures var d, last := HealthAfter(dev, items), LastSeen(items, device);
      (last.Some? <==> CountOf(items, device) > 0) &&
      (device in d <==> device in dev || last.Some?) &&
      (device in d ==> d[device].total == (if device in dev then dev[device].total else 0) + CountOf(items, device)) &&
      (device in d && last.Some? ==> d[device].lastSeen == last.value) &&
      (device in d && last.None? ==> d[device] == dev[device])
  {
    if |items| > 0 {
      HealthCounts(dev, items[..|items| - 1], device);
    }
  }

  lemma NothingDone(dev: map<string, Health>)
    ensures Pick([], true) == [] && Pick([], false) == [] && HealthAfter(dev, []) == dev
  {
  }

  lemma OneDone(dev: map<string, Health>, done: seq<Parsed>, x: Parsed)
    ensures Pick(done + [x], true) == Pick(done, true) + Chosen(x, true)
    ensures Pick(done + [x], false) == Pick(done, false) + Chosen(x, false)
    ensures HealthAfter(dev, done + [x]) == Seen(HealthAfter(dev, done), x)
  {
    assert (done + [x])[..|done|] == done;
  }

  class WriterThread {
    var events: seq<Parsed>
    var unparsed: seq<Parsed>
    var parsedCount: nat
    var unparsedCount: nat
    var dev: map<string, Health>
    /** The rows of the two tables, in insertion order. */
    var storedEvents: seq<Parsed>
    var storedUnparsed: seq<Parsed>
    var published: Published

    /** Counters and tables agree, counting from what an earlier run had stored. */
    ghost predicate Valid(parsedBefore: nat, unparsedBefore: nat)
      reads this
    {
      parsedCount == parsedBefore + |storedEvents| && unparsedCount == unparsedBefore + |storedUnparsed|
    }

    constructor (parsedBefore: nat, unparsedBefore: nat, dev: map<string, Health>)
      ensures Valid(parsedBefore, unparsedBefore)
      ensures events == [] && unparsed == [] && storedEvents == [] && storedUnparsed == [] && this.dev == dev
    {
      events, unparsed, storedEvents, storedUnparsed := [], [], [], [];
      parsedCount, unparsedCount := parsedBefore, unparsedBefore;
      this.dev := dev;
      published := Published(parsedBefore, unparsedBefore, dev, 0, 0, 0);
    }

    method Record(x: Parsed)
      modifies this`events, this`unparsed, this`dev
      ensures events == old(events) + Chosen(x, true) && unparsed == old(unparsed) + Chosen(x, false)
      ensures dev == Seen(old(dev), x)
    {
      if x.Ev? {
        events := events + [x];
        var d := if x.device in dev then dev[x.device] else Health(x.ts, 0);
        dev := dev[x.device := Health(x.ts, d.total + 1)];
      } else {
        unparsed := unparsed + [x];
      }
    }

    method Flush(sh: Shared, ghost parsedBefore: nat, ghost unparsedBefore: nat)
      requires Valid(parsedBefore, unparsedBefore)
      modifies this
      ensures Valid(parsedBefore, unparsedBefore) && events == [] && unparsed == [] && dev == old(dev)
      ensures storedEvents == old(storedEvents) + old(events) && storedUnparsed == old(storedUnparsed) + old(unparsed)
      ensures published == Published(parsedCount, unparsedCount, dev, sh.dropped, sh.ignored, sh.rejected)
    {
      if |events| > 0 {
        storedEvents := storedEvents + events;
        parsedCount := parsedCount + |events|;
        events := [];
      }
      if |unparsed| > 0 {
        storedUnparsed := storedUnparsed + unparsed;
        unparsedCount := unparsedCount + |unparsed|;
        unparsed := [];
      }
      published := Published(parsedCount, unparsedCount, dev, sh.dropped, sh.ignored, sh.rejected);
    }

    /** The drain at shutdown: everything still queued is stored, in order, and the queue is empty. */
    method FinalDrain(sh: Shared, ghost parsedBefore: nat, ghost unparsedBefore: nat)
      requires Valid(parsedBefore, unparsedBefore)
      modifies this, sh`queue
      ensures Valid(parsedBefore, unparsedBefore) && sh.queue == [] && events == [] && unparsed == []
      ensures storedEvents == old(storedEvents) + old(events) + Pick(old(sh.queue), true)
      ensures storedUnparsed == old(storedUnparsed) + old(unparsed) + Pick(old(sh.queue), false)
      ensures dev == HealthAfter(old(dev), old(sh.queue))
      ensures published == Published(parsedCount, unparsedCount, dev, sh.dropped, sh.ignored, sh.rejected)
    {
      hide Pick, HealthAfter, Seen;
      ghost var done: seq<Parsed> := [];
      NothingDone(dev);
      while |sh.queue| > 0
        invariant old(sh.queue) == done + sh.queue && Valid(parsedBefore, unparsedBefore)
        invariant storedEvents == old(storedEvents) && storedUnparsed == old(storedUnparsed)
        invariant events == old(events) + Pick(done, true) && unparsed == old(unparsed) + Pick(done, false)
        invariant dev == HealthAfter(old(dev), done)
        decreases |sh.queue|
      {
        var x := sh.queue[0];
        sh.queue := sh.queue[1..];
        Record(x);
        OneDone(old(dev), done, x);
        done := done + [x];
      }
      assert done == old(sh.queue);
      Flush(sh, parsedBefore, unparsedBefore);
    }
  }
}
