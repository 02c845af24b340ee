/**
 * What a listener does with a datagram: hold it while its sender is refused,
 * replay it when the sender becomes allowed, parse and queue it.
 */
module Listener {

  const HELD_MAX: nat := 5000
  const HELD_TTL: nat := 600
  const MAX_RAW_LEN: nat := 4096

  datatype Item = Item(ts: int, sender: string, data: string)

  function Truncate(s: string): string {
    if |s| <= MAX_RAW_LEN then s else s[..MAX_RAW_LEN]
  }

  /** Drops entries from the front while they are too old. */
  function Expire(items: seq<Item>, now: int): seq<Item> {
    if |items| > 0 && now - items[0].ts > HELD_TTL then Expire(items[1..], now) else items
  }

  /** A deque of at most HELD_MAX entries: the oldest go first. */
  function Bounded(items: seq<Item>): seq<Item> {
    if |items| > HELD_MAX then items[|items| - HELD_MAX..] else items
  }

  function HeldAdd(items: seq<Item>, now: int, sender: string, data: string): seq<Item> {
    Bounded(Expire(items, now) + [Item(now, sender, Truncate(data))])
  }

  function Released(items: seq<Item>, allows: string -> bool): seq<Item> {
    if |items| == 0 then []
    else
      Released(items[..|items| - 1], allows) + if allows(items[|items| - 1].sender) then [items[|items| - 1]] else []
  }

  function Kept(items: seq<Item>, allows: string -> bool): seq<Item> {
    if |items| == 0 then []
    else Kept(items[..|items| - 1], allows) + if allows(items[|items| - 1].sender) then [] else [items[|items| - 1]]
  }

  /** Entries in the order they were held: the clock does not run backwards. */
  ghost predicate InOrder(items: seq<Item>) {
    forall i, j :: 0 <= i < j < |items| ==> items[i].ts <= items[j].ts
  }

  /** Expiry keeps exactly the entries that are young enough. */
  lemma {:induction false} ExpireExactly(items: seq<Item>, now: int)
    requires InOrder(items)
    ensures InOrder(Expire(items, now))
    ensures forall x :: x in Expire(items, now) <==> x in items && now - x.ts <= HELD_TTL
  {
    if |items| > 0 && now - items[0].ts > HELD_TTL {
      ExpireExactly(items[1..], now);
    } else {
      forall x | x in items
        ensures now - x.ts <= HELD_TTL
      {
        var i :| 0 <= i < |items| && items[i] == x;
      }
    }
  }

  lemma {:induction false} ExpireSuffix(items: seq<Item>, now: int)
    ensures var r := Expire(items, now);
      |r| <= |items| && r == items[|items| - |r|..] &&
      forall j :: 0 <= j < |items| - |r| ==> now - items[j].ts > HELD_TTL
  {
    if |items| > 0 && now - items[0].ts > HELD_TTL {
      ExpireSuffix(items[1..], now);
    }
  }

  /**
   * Holding a datagram puts its first 4096 bytes behind the held ones and keeps exactly those,
   * in their order, that are at most 600 seconds old and now have fewer than 5000 behind them.
   */
  lemma AddKeepsNewest(items: seq<Item>, now: int, sender: string, data: string)
    requires InOrder(items)
    ensures var r := HeldAdd(items, now, sender, data);
      var n := |items| + 1 - |r|;
      |r| >= 1 && n >= 0 && r[|r| - 1] == Item(now, sender, if |data| <= 4096 then data else data[..4096]) &&
      r[..|r| - 1] == items[n..] &&
      forall j :: 0 <= j < |items| ==> (n <= j <==> now - items[j].ts <= 600 && |items| - j <= 4999)
  {
    ExpireSuffix(items, now);
    hide Expire;
    var young := Expire(items, now);
    forall x | x in young
      ensures now - x.ts <= 600
    {
      ExpireExactly(items, now);
    }
    var r, skip := HeldAdd(items, now, sender, data), |items| - |young|;
    var n := |items| + 1 - |r|;
    assert r[..|r| - 1] == items[n..];
    forall j | skip <= j < |items|
      ensures now - items[j].ts <= 600
    {
      assert items[j] == young[j - skip];
    }
  }

  /** A release splits the held entries: every allowed sender out, every other one kept, none lost. */
  lemma {:induction false} ReleasePartitions(items: seq<Item>, allows: string -> bool)
    ensures multiset(Released(items, allows)) + multiset(Kept(items, allows)) == multiset(items)
    ensures forall x :: x in Released(items, allows) ==> allows(x.sender)
    ensures forall x :: x in Kept(items, allows) ==> !allows(x.sender)
  {
    if |items| > 0 {
      var rest, last := items[..|items| - 1], items[|items| - 1];
      ReleasePartitions(rest, allows);
      assert items == rest + [last];
    }
  }

  /** Both halves of a release stay in the order in which they were held. */
  lemma {:induction false} ReleaseInOrder(items: seq<Item>, allows: string -> bool)
    requires InOrder(items)
    ensures InOrder(Released(items, allows)) && InOrder(Kept(items, allows))
  {
    if |items| > 0 {
      hide InOrder;
      var rest, last := items[..|items| - 1], items[|items| - 1];
      LastIsLatest(items);
      ReleaseInOrder(rest, allows);
      ReleasedWereHeld(rest, allows);
      OrderPush(Released(rest, allows), last);
      OrderPush(Kept(rest, allows), last);
      assert Released(rest, allows) + [] == Released(rest, allows) && Kept(rest, allows) + [] == Kept(rest, allows);
    }
  }

  lemma LastIsLatest(items: seq<Item>)
    requires |items| > 0 && InOrder(items)
    ensures InOrder(items[..|items| - 1]) && forall x :: x in items[..|items| - 1] ==> x.ts <= items[|items| - 1].ts
  {
  }

  lemma {:induction false} ReleasedWereHeld(items: seq<Item>, allows: string -> bool)
    ensures forall x :: x in Released(items, allows) || x in Kept(items, allows) ==> x in items
  {
    if |items| > 0 {
      ReleasedWereHeld(items[..|items| - 1], allows);
    }
  }

  lemma OrderPush(items: seq<Item>, x: Item)
    requires InOrder(items) && forall y :: y in items ==> y.ts <= x.ts
    ensures InOrder(items + [x])
  {
  }

  class Held {
    var items: seq<Item>

    constructor ()
      ensures items == []
    {
      items := [];
    }

    method DropExpired(now: int)
      modifies this
      ensures items == Expire(old(items), now)
    {
      while |items| > 0 && now - items[0].ts > HELD_TTL
        invariant Expire(items, now) == Expire(old(items), now)
        decreases |items|
      {
        items := items[1..];
      }
    }

    method Add(now: int, sender: string, data: string)
      modifies this
      ensures items == HeldAdd(old(items), now, sender, data)
    {
      DropExpired(now);
      items := Bounded(items + [Item(now, sender, Truncate(data))]);
    }

    method Release(now: int, allows: string -> bool) returns (out: seq<Item>)
      modifies this
      ensures out == Released(Expire(old(items), now), allows)
      ensures items == Bounded(Kept(Expire(old(items), now), allows))
    {
      DropExpired(now);
      var keep := [];
      out := [];
      for i := 0 to |items|
        invariant items == Expire(old(items), now)
        invariant out == Released(items[..i], allows)
        invariant keep == Kept(items[..i], allows)
      {
        assert items[..i + 1][..i] == items[..i];
        if allows(items[i].sender) {
          out := out + [items[i]];
        } else {
          keep := keep + [items[i]];
        }
      }
      assert items[..|items|] == items;
      items := Bounded(keep);
    }
  }

  // ---- parsing and queueing -------------------------------------------------------------------

  /** What the parser makes of a line. */
  datatype Outcome = Event | Unparsed | Ignored

  datatype Parsed = Ev(ts: int, device: string, text: string) | Un(ts: int, device: string, text: string)

  /** The shared queue and the counters beside it. */
  datatype Tally = Tally(queue: seq<Parsed>, dropped: nat, ignored: nat)

  predicate HasRoom(queue: seq<Parsed>, capacity: nat) {
    capacity == 0 || |queue| < capacity
  }

  function ToParsed(o: Outcome, ts: int, device: string, text: string): Parsed
    requires o != Ignored
  {
    if o == Event then Ev(ts, device, text) else Un(ts, device, Truncate(text))
  }

  /** One datagram queued, ignored, or dropped on a full queue. */
  function IngestOne(t: Tally, capacity: nat, o: Outcome, ts: int, device: string, text: string): Tally {
    if o == Ignored then t.(ignored := t.ignored + 1)
    else if HasRoom(t.queue, capacity) then t.(queue := t.queue + [ToParsed(o, ts, device, text)])
    else t.(dropped := t.dropped + 1)
  }

  function IngestAll(t: Tally, capacity: nat, classify: string -> Outcome, device: string, items: seq<Item>): Tally {
    if |items| == 0 then t
    else
      var x := items[|items| - 1];
      var before := IngestAll(t, capacity, classify, device, items[..|items| - 1]);
      IngestOne(before, capacity, classify(x.data), x.ts, device, x.data)
  }

  /** Every replayed datagram ends in exactly one place; what is queued keeps its order. */
  lemma {:induction false} IngestAllConserves(t: Tally, capacity: nat, classify: string -> Outcome, device: string,
                                              items: seq<Item>)
    ensures var r := IngestAll(t, capacity, classify, device, items);
      t.queue <= r.queue && r.dropped >= t.dropped && r.ignored >= t.ignored &&
      (|r.queue| - |t.queue|) + (r.dropped - t.dropped) + (r.ignored - t.ignored) == |items|
    ensures capacity > 0 && |t.queue| <= capacity ==>
      |IngestAll(t, capacity, classify, device, items).queue| <= capacity
  {
    if |items| > 0 {
      IngestAllConserves(t, capacity, classify, device, items[..|items| - 1]);
    }
  }

  /** The row a datagram is worth, if any. */
  function RowOf(o: Outcome, ts: int, device: string, text: string): seq<Parsed> {
    match o
    case Event => [Ev(ts, device, text)]
    case Unparsed => [Un(ts, device, if |text| <= 4096 then text else text[..4096])]
    case Ignored => []
  }

  function RowsOf(classify: string -> Outcome, device: string, items: seq<Item>): seq<Parsed> {
    if |items| == 0 then []
    else
      var x := items[|items| - 1];
      RowsOf(classify, device, items[..|items| - 1]) + RowOf(classify(x.data), x.ts, device, x.data)
  }

  /**
   * A replay queues the rows of its datagrams in order, dated when they came in, as many as there
   * is room for; the other rows are dropped, and the rest of the datagrams are ignored.
   */
  lemma {:induction false} ReplayExactly(t: Tally, capacity: nat, classify: string -> Outcome, device: string,
                                         items: seq<Item>)
    requires capacity > 0 ==> |t.queue| <= capacity
    ensures var r, rows := IngestAll(t, capacity, classify, device, items), RowsOf(classify, device, items);
      var n := if capacity == 0 || |t.queue| + |rows| <= capacity then |rows| else capacity - |t.queue|;
      |rows| <= |items| && r.queue == t.queue + rows[..n] &&
      r.dropped == t.dropped + |rows| - n && r.ignored == t.ignored + |items| - |rows|
  {
    if |items| > 0 {
      var x, rest := items[|items| - 1], items[..|items| - 1];
      ReplayExactly(t, capacity, classify, device, rest);
      hide IngestAll;
      assert |RowOf(classify(x.data), x.ts, device, x.data)| == if classify(x.data) == Ignored then 0 else 1;
      NextIngested(t, capacity, classify, device, items);
    }
  }

  lemma NextIngested(t: Tally, capacity: nat, classify: string -> Outcome, device: string, items: seq<Item>)
    requires |items| > 0
    ensures var x, before := items[|items| - 1], IngestAll(t, capacity, classify, device, items[..|items| - 1]);
      IngestAll(t, capacity, classify, device, items) ==
      match classify(x.data)
      case Ignored => before.(ignored := before.ignored + 1)
      case _ =>
        if capacity > 0 && |before.queue| >= capacity then before.(dropped := before.dropped + 1)
        else before.(queue := before.queue + RowOf(classify(x.data), x.ts, device, x.data))
  {
  }

  class Shared {
    const capacity: nat
    var queue: seq<Parsed>
    var dropped: nat
    var ignored: nat
    var rejected: nat

    constructor (capacity: nat)
      ensures queue == [] && dropped == ignored == rejected == 0 && this.capacity == capacity
    {
      this.capacity := capacity;
      queue, dropped, ignored, rejected := [], 0, 0, 0;
    }

    function State(): Tally
      reads this
    {
      Tally(queue, dropped, ignored)
    }

    method Ingest(classify: string -> Outcome, device: string, text: string, now: int)
      modifies this
      ensures State() == IngestOne(old(State()), capacity, classify(text), now, device, text)
      ensures rejected == old(rejected)
      ensures classify(text) == Ignored ==>
        ignored == old(ignored) + 1 && queue == old(queue) && dropped == old(dropped)
      ensures classify(text) != Ignored && capacity > 0 && |old(queue)| >= capacity ==>
        dropped == old(dropped) + 1 && queue == old(queue) && ignored == old(ignored)
      ensures classify(text) == Event && (capacity == 0 || |old(queue)| < capacity) ==>
        queue == old(queue) + [Ev(now, device, text)] && dropped == old(dropped) && ignored == old(ignored)
      ensures classify(text) == Unparsed && (capacity == 0 || |old(queue)| < capacity) ==>
        queue == old(queue) + [Un(now, device, if |text| <= 4096 then text else text[..4096])] &&
        dropped == old(dropped) && ignored == old(ignored)
    {
      var o := classify(text);
      if o == Ignored {
        ignored := ignored + 1;
      } else if HasRoom(queue, capacity) {
        queue := queue + [ToParsed(o, now, device, text)];
      } else {
        dropped := dropped + 1;
      }
    }

    /** Replays what is now allowed and takes it out of the rejected count again. */
    method Replay(held: Held, classify: string -> Outcome, device: string, allows: string -> bool, now: int)
      modifies this, held
      ensures held.items == Bounded(Kept(Expire(old(held.items), now), allows))
      ensures var out := Released(Expire(old(held.items), now), allows);
        State() == IngestAll(old(State()), capacity, classify, device, out) &&
        rejected == if old(rejected) < |out| then 0 else old(rejected) - |out|
    {
      var released := held.Release(now, allows);
      if |released| == 0 {
        return;
      }
      for i := 0 to |released|
        invariant State() == IngestAll(old(State()), capacity, classify, device, released[..i])
        invariant rejected == old(rejected) && held.items == Bounded(Kept(Expire(old(held.items), now), allows))
      {
        assert released[..i + 1][..i] == released[..i];
        Ingest(classify, device, released[i].data, released[i].ts);
      }
      assert released[..|released|] == released;
      rejected := if rejected < |released| then 0 else rejected - |released|;
    }
  }
}
