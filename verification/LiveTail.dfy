/**
 * The live tail of the store: incremental polls from a cursor while rows are
 * inserted and pruned.
 */
module LiveTail {
  import opened Filters
  import opened History

  const LIVE_SCAN_CAP: nat := 1000000

  predicate Shown(f: Filter, env: Env, lo: int, e: Entry) {
    Selected(f, env, e.row) && e.id > lo
  }

  /** The rows a filter shows above an id, oldest first. */
  function Tail(t: Table, f: Filter, env: Env, lo: int): seq<Entry> {
    if |t| == 0 then []
    else
      var e := t[|t| - 1];
      Tail(t[..|t| - 1], f, env, lo) + if Shown(f, env, lo, e) then [e] else []
  }

  /** SELECT .. WHERE .. ORDER BY id ASC. */
  function SelectAsc(t: Table, cs: seq<Clause>): seq<Entry> {
    if |t| == 0 then []
    else
      var e := t[|t| - 1];
      SelectAsc(t[..|t| - 1], cs) + if AllHold(cs, e.id, e.row) then [e] else []
  }

  lemma {:induction false} SelectIsTail(t: Table, f: Filter, env: Env, cs: seq<Clause>, lo: int)
    requires forall i :: 0 <= i < |t| ==> (AllHold(cs, t[i].id, t[i].row) <==> Shown(f, env, lo, t[i]))
    ensures SelectAsc(t, cs) == Tail(t, f, env, lo)
  {
    hide AllHold, Shown;
    if |t| > 0 {
      var s := t[..|t| - 1];
      assert forall i :: 0 <= i < |s| ==> s[i] == t[i];
      SelectIsTail(s, f, env, cs, lo);
    }
  }

  lemma {:induction false} DescIsBackward(t: Table, cs: seq<Clause>)
    ensures SelectDesc(t, cs) == Backward(SelectAsc(t, cs))
  {
    hide AllHold;
    if |t| > 0 {
      DescIsBackward(t[..|t| - 1], cs);
    }
  }

  function Backward(s: seq<Entry>): (r: seq<Entry>)
    ensures |r| == |s| && forall i :: 0 <= i < |s| ==> r[i] == s[|s| - 1 - i]
  {
    seq(|s|, i requires 0 <= i < |s| => s[|s| - 1 - i])
  }

  /** The last n rows of a listing. */
  function Newest(s: seq<Entry>, n: nat): seq<Entry> {
    if |s| <= n then s else s[|s| - n..]
  }

  lemma NewestBackward(s: seq<Entry>, n: nat)
    ensures Backward(Limit(Backward(s), n)) == Newest(s, n)
  {
    var r := Backward(Limit(Backward(s), n));
    forall i | 0 <= i < |r|
      ensures r[i] == Newest(s, n)[i]
    {
      assert r[i] == Backward(s)[|r| - 1 - i] == s[|s| - |r| + i];
    }
  }

  lemma NewestHolds(s: seq<Entry>, n: nat, k: nat)
    requires k < |s|
    ensures s[k] in Newest(s, n) || k < |s| - n
  {
    var r := Newest(s, n);
    assert k >= |s| - |r| ==> r[k - (|s| - |r|)] == s[k];
  }

  /** Where the first poll starts to look when the filter has to be scanned for. */
  function BackfillFloor(t: Table, f: Filter): int {
    if Scanning(f) then MaxId(t) - LIVE_SCAN_CAP else 0
  }

  /** The rows of a poll: the first above the cursor, or the newest when there is no cursor yet. */
  function PollRows(t: Table, since: int, f: Filter, env: Env, limit: nat): seq<Entry> {
    if since > 0 then Limit(Tail(t, f, env, since), limit) else Newest(Tail(t, f, env, BackfillFloor(t, f)), limit)
  }

  /** The cursor it returns: the last row, or without rows the old cursor, or the newest id of all. */
  function PollCursor(t: Table, since: int, rows: seq<Entry>): int {
    if |rows| > 0 then rows[|rows| - 1].id else if since > 0 then since else MaxId(t)
  }

  /** A poll: rows above the cursor, or the newest rows when there is no cursor yet. */
  method QueryLive(t: Table, since: int, f: Filter, env: Env, limit: nat)
    returns (cursor: int, rows: seq<Entry>)
    requires ValidTable(t) && ValidPort(env, f.port) && limit >= 1
    ensures rows == PollRows(t, since, f, env, limit) && cursor == PollCursor(t, since, rows)
  {
    hide AllHold, Selected, Scanning, ValidPort, Tail, SelectAsc, SelectDesc, Limit, Newest, Backward, ValidTable,
      MaxId;
    var cs := FilterClauses(f, env);
    if since > 0 {
      cs := And(cs, IdAbove(since));
      SelectIsTail(t, f, env, cs, since);
      rows := Limit(SelectAsc(t, cs), limit);
      cursor := if |rows| > 0 then rows[|rows| - 1].id else since;
    } else {
      if Scanning(f) {
        cs := And(cs, IdAbove(MaxId(t) - LIVE_SCAN_CAP));
      }
      IdsBounded(t);
      SelectIsTail(t, f, env, cs, BackfillFloor(t, f));
      DescIsBackward(t, cs);
      rows := Limit(SelectDesc(t, cs), limit);
      rows := Backward(rows);
      NewestBackward(SelectAsc(t, cs), limit);
      cursor := if |rows| > 0 then rows[|rows| - 1].id else MaxId(t);
    }
  }

  lemma {:induction false} TailMember(t: Table, f: Filter, env: Env, lo: int, e: Entry)
    ensures e in Tail(t, f, env, lo) <==> e in t && Shown(f, env, lo, e)
  {
    hide Shown;
    if |t| > 0 {
      TailMember(t[..|t| - 1], f, env, lo, e);
      assert t == t[..|t| - 1] + [t[|t| - 1]];
    }
  }

  lemma {:induction false} TailAscending(t: Table, f: Filter, env: Env, lo: int)
    requires ValidTable(t)
    ensures Ascending(Tail(t, f, env, lo))
  {
    hide Shown;
    if |t| > 0 {
      var s := t[..|t| - 1];
      var tail := Tail(s, f, env, lo);
      TailAscending(s, f, env, lo);
      forall i | 0 <= i < |tail|
        ensures tail[i].id < t[|t| - 1].id
      {
        TailMember(s, f, env, lo, tail[i]);
        assert tail[i] in tail;
        var j :| 0 <= j < |s| && s[j] == tail[i];
        assert t[j] == s[j];
      }
    }
  }

  /** Tail lists exactly the shown rows, strictly ascending. */
  lemma TailExactly(t: Table, f: Filter, env: Env, lo: int)
    requires ValidTable(t)
    ensures forall e :: e in Tail(t, f, env, lo) <==> e in t && Shown(f, env, lo, e)
    ensures Ascending(Tail(t, f, env, lo))
  {
    forall e
      ensures e in Tail(t, f, env, lo) <==> e in t && Shown(f, env, lo, e)
    {
      TailMember(t, f, env, lo, e);
    }
    TailAscending(t, f, env, lo);
  }

  ghost predicate Ascending(s: seq<Entry>) {
    forall i, j :: 0 <= i < j < |s| ==> s[i].id < s[j].id
  }

  /** With any filter but the device a first poll looks at the newest million ids only. */
  lemma BackfillBound(t: Table, f: Filter)
    ensures f == Filter(f.device, "", "", "", "", "", "", "", "") ==> BackfillFloor(t, f) == 0
    ensures f != Filter(f.device, "", "", "", "", "", "", "", "") ==>
      BackfillFloor(t, f) == (if t == [] then 0 else t[|t| - 1].id) - 1000000
  {
  }

  /**
   * A poll from a cursor returns the first rows above it that the filter shows, at most limit,
   * oldest first; what it does not return comes later.
   */
  lemma PollAbove(t: Table, since: int, f: Filter, env: Env, limit: nat, e: Entry)
    requires ValidTable(t) && limit >= 1 && since > 0
    ensures var rows := PollRows(t, since, f, env, limit);
      |rows| <= limit && Ascending(rows) &&
      (e in rows ==> e in t && Selected(f, env, e.row) && e.id > since) &&
      (e in t && Selected(f, env, e.row) && e.id > since && e !in rows ==>
        |rows| == limit && forall d :: d in rows ==> d.id < e.id)
  {
    var all := Tail(t, f, env, since);
    var rows := PollRows(t, since, f, env, limit);
    TailExactly(t, f, env, since);
    hide Tail, Selected, ValidTable;
    if e in all && e !in rows {
      var k :| 0 <= k < |all| && all[k] == e;
      assert k >= |rows|;
    }
  }

  /** A poll without a cursor returns the newest such rows, at most limit; what it does not return is older. */
  lemma PollNewest(t: Table, since: int, f: Filter, env: Env, limit: nat, e: Entry)
    requires ValidTable(t) && limit >= 1 && since <= 0
    ensures var rows, floor := PollRows(t, since, f, env, limit), BackfillFloor(t, f);
      |rows| <= limit && Ascending(rows) &&
      (e in rows ==> e in t && Selected(f, env, e.row) && e.id > floor) &&
      (e in t && Selected(f, env, e.row) && e.id > floor && e !in rows ==>
        |rows| == limit && forall d :: d in rows ==> d.id > e.id)
  {
    var all := Tail(t, f, env, BackfillFloor(t, f));
    var rows := PollRows(t, since, f, env, limit);
    TailExactly(t, f, env, BackfillFloor(t, f));
    hide Tail, Selected, ValidTable, BackfillFloor;
    if e in all && e !in rows {
      var k :| 0 <= k < |all| && all[k] == e;
      NewestHolds(all, limit, k);
    }
  }

  /** The cursor a poll returns: its last row, or without rows the old cursor, or the newest id of all. */
  lemma CursorAfter(t: Table, since: int, rows: seq<Entry>)
    ensures |rows| > 0 ==> PollCursor(t, since, rows) == rows[|rows| - 1].id
    ensures |rows| == 0 && since > 0 ==> PollCursor(t, since, rows) == since
    ensures |rows| == 0 && since <= 0 ==> PollCursor(t, since, rows) == if t == [] then 0 else t[|t| - 1].id
  {
  }

  /** The first poll misses nothing: no shown row lies above the cursor it returns. */
  lemma FirstPollIsCurrent(t: Table, since: int, f: Filter, env: Env, limit: nat)
    requires ValidTable(t) && limit >= 1 && since <= 0
    ensures var cursor := PollCursor(t, since, PollRows(t, since, f, env, limit));
      0 <= cursor <= MaxId(t) && (t != [] ==> cursor > 0) &&
      forall e :: e in t && Selected(f, env, e.row) ==> e.id <= cursor
  {
    var all := Tail(t, f, env, BackfillFloor(t, f));
    var rows := Newest(all, limit);
    TailExactly(t, f, env, BackfillFloor(t, f));
    IdsBounded(t);
    hide Selected, Tail, ValidTable;
    assert |rows| > 0 ==> rows[|rows| - 1] == all[|all| - 1] && all[|all| - 1] in all;
    if t == [] {
      assert |rows| == 0;
    } else {
      assert t[|t| - 1] in t;
    }
    forall e | e in t && Selected(f, env, e.row)
      ensures |rows| > 0 ==> e.id <= rows[|rows| - 1].id
    {
      if e in all {
        var i :| 0 <= i < |all| && all[i] == e;
      }
    }
  }

  // ---- retention ----------------------------------------------------------------------------

  function KeepFrom(t: Table, cutoff: int): Table {
    if |t| == 0 then []
    else KeepFrom(t[..|t| - 1], cutoff) + if t[|t| - 1].row.ts >= cutoff then [t[|t| - 1]] else []
  }

  function KeepAbove(t: Table, id: int): Table {
    if |t| == 0 then []
    else KeepAbove(t[..|t| - 1], id) + if t[|t| - 1].id > id then [t[|t| - 1]] else []
  }

  /** Deletes rows past the retention window, then all but the newest ids. */
  function Prune(t: Table, cutoff: int, maxEvents: int): Table {
    var kept := KeepFrom(t, cutoff);
    if maxEvents > 0 then KeepAbove(kept, MaxId(kept) - maxEvents) else kept
  }

  lemma {:induction false} KeepFromValid(t: Table, cutoff: int)
    requires ValidTable(t)
    ensures ValidTable(KeepFrom(t, cutoff)) && MaxId(KeepFrom(t, cutoff)) <= MaxId(t)
  {
    if |t| > 0 {
      KeepFromValid(t[..|t| - 1], cutoff);
    }
  }

  lemma {:induction false} KeepFromMembers(t: Table, cutoff: int)
    ensures forall e :: e in KeepFrom(t, cutoff) <==> e in t && e.row.ts >= cutoff
  {
    if |t| > 0 {
      KeepFromMembers(t[..|t| - 1], cutoff);
      assert t == t[..|t| - 1] + [t[|t| - 1]];
    }
  }

  /** The ids kept lie in a window, so there are no more rows than the window is wide. */
  lemma {:induction false} KeepAboveValid(t: Table, id: int)
    requires ValidTable(t)
    ensures ValidTable(KeepAbove(t, id)) && MaxId(KeepAbove(t, id)) <= MaxId(t)
    ensures |KeepAbove(t, id)| <= if MaxId(t) > id then MaxId(t) - id else 0
  {
    if |t| > 0 {
      hide ValidTable, MaxId;
      var s, kept := t[..|t| - 1], KeepAbove(t[..|t| - 1], id);
      RestValid(t);
      KeepAboveValid(s, id);
      KeepAboveMembers(s, id);
      KeepLast(kept, t, id);
    }
  }

  lemma RestValid(t: Table)
    requires ValidTable(t) && |t| > 0
    ensures ValidTable(t[..|t| - 1])
    ensures forall e :: e in t[..|t| - 1] ==> e.id < t[|t| - 1].id
  {
    assert forall i :: 0 <= i < |t| - 1 ==> t[..|t| - 1][i] == t[i];
  }

  lemma KeepLast(kept: Table, t: Table, id: int)
    requires |t| > 0 && ValidTable(t) && ValidTable(kept)
    requires forall e :: e in kept ==> e in t[..|t| - 1]
    requires var low := MaxId(t[..|t| - 1]);
      |kept| <= if low > id then low - id else 0
    ensures var last := t[|t| - 1];
      var all := kept + if last.id > id then [last] else [];
      ValidTable(all) && MaxId(all) <= MaxId(t) && |all| <= if MaxId(t) > id then MaxId(t) - id else 0
  {
    RestValid(t);
    assert forall i :: 0 <= i < |kept| ==> kept[i] in kept;
  }

  lemma {:induction false} KeepAboveMembers(t: Table, id: int)
    ensures forall e :: e in KeepAbove(t, id) <==> e in t && e.id > id
  {
    if |t| > 0 {
      KeepAboveMembers(t[..|t| - 1], id);
      assert t == t[..|t| - 1] + [t[|t| - 1]];
    }
  }

  /** What retention keeps, and that the row cap is one. */
  lemma PruneExactly(t: Table, cutoff: int, maxEvents: int)
    requires ValidTable(t)
    ensures ValidTable(Prune(t, cutoff, maxEvents)) && MaxId(Prune(t, cutoff, maxEvents)) <= MaxId(t)
    ensures forall e :: e in Prune(t, cutoff, maxEvents) <==>
      e in t && e.row.ts >= cutoff && (maxEvents > 0 ==> e.id > MaxId(KeepFrom(t, cutoff)) - maxEvents)
    ensures maxEvents > 0 ==> |Prune(t, cutoff, maxEvents)| <= maxEvents
  {
    hide KeepFrom, KeepAbove, ValidTable;
    var kept := KeepFrom(t, cutoff);
    KeepFromValid(t, cutoff);
    KeepFromMembers(t, cutoff);
    KeepAboveValid(kept, MaxId(kept) - maxEvents);
    KeepAboveMembers(kept, MaxId(kept) - maxEvents);
  }

  // ---- runs -----------------------------------------------------------------------------------

  datatype Step = Insert(id: int, row: Row) | Poll(limit: nat) | PruneRows(cutoff: int, maxEvents: int)

  /** lastId is the largest id ever assigned, log every row ever present. */
  datatype State = State(t: Table, lastId: int, log: seq<Entry>, cursor: int, got: seq<Entry>)

  predicate Enabled(s: State, step: Step) {
    match step
    case Insert(id, row) => id > s.lastId
    case Poll(limit) => limit >= 1
    case PruneRows(_, _) => true
  }

  function Next(s: State, step: Step, f: Filter, env: Env): State
    requires Enabled(s, step)
  {
    match step
    case Insert(id, row) =>
      s.(t := s.t + [Entry(id, row)], lastId := id, log := s.log + [Entry(id, row)])
    case PruneRows(cutoff, maxEvents) => s.(t := Prune(s.t, cutoff, maxEvents))
    case Poll(limit) =>
      var rows := PollRows(s.t, s.cursor, f, env, limit);
      s.(cursor := PollCursor(s.t, s.cursor, rows), got := s.got + rows)
  }

  ghost predicate Runs(states: seq<State>, steps: seq<Step>, f: Filter, env: Env) {
    |states| == |steps| + 1 &&
    forall i :: 0 <= i < |steps| ==> Enabled(states[i], steps[i]) && states[i + 1] == Next(states[i], steps[i], f, env)
  }

  ghost predicate Start(s: State) {
    ValidTable(s.t) && MaxId(s.t) <= s.lastId && s.lastId >= 0 && s.log == s.t && s.cursor > 0 && s.got == []
  }

  /** In order, without repetition, nothing at or below the starting cursor c0. */
  ghost predicate Orderly(s: State, c0: int, f: Filter, env: Env) {
    ValidTable(s.t) && MaxId(s.t) <= s.lastId && s.lastId >= 0 && c0 <= s.cursor &&
    (s.cursor == c0 || s.cursor <= s.lastId) &&
    Ascending(s.got) &&
    (forall e :: e in s.got ==> e in s.log && Selected(f, env, e.row) && c0 < e.id <= s.cursor) &&
    (forall e :: e in s.t ==> e in s.log)
  }

  /** Without skipping: what the table still has to show up to the cursor was delivered. */
  ghost predicate Gapless(s: State, c0: int, f: Filter, env: Env) {
    forall e :: e in s.t && Shown(f, env, c0, e) && e.id <= s.cursor ==> e in s.got
  }

  /** What the polls so far have delivered, seen from the starting cursor c0. */
  ghost predicate Delivered(s: State, c0: int, f: Filter, env: Env) {
    Orderly(s, c0, f, env) && Gapless(s, c0, f, env)
  }

  lemma IdsBounded(t: Table)
    requires ValidTable(t)
    ensures forall e :: e in t ==> 1 <= e.id <= MaxId(t)
  {
  }

  /** One poll takes the first shown rows above the cursor, and the cursor moves to the last of them. */
  lemma PollTakes(t: Table, cursor: int, limit: nat, f: Filter, env: Env)
    requires limit >= 1 && ValidTable(t)
    ensures var rows := Limit(Tail(t, f, env, cursor), limit);
      var c := if |rows| > 0 then rows[|rows| - 1].id else cursor;
      Ascending(rows) && cursor <= c && (c == cursor || c <= MaxId(t)) &&
      forall e :: e in rows <==> e in t && Shown(f, env, cursor, e) && e.id <= c
  {
    hide Selected, Tail, Ascending, ValidTable, MaxId;
    var all := Tail(t, f, env, cursor);
    var rows := Limit(all, limit);
    TailExactly(t, f, env, cursor);
    if |rows| > 0 {
      var last := all[|rows| - 1];
      AscendingTake(all, |rows|);
      assert last in all;
      IdsBounded(t);
    }
  }

  /** The first k entries of an ascending list are those up to the k-th id. */
  lemma AscendingTake(all: seq<Entry>, k: nat)
    requires Ascending(all) && 0 < k <= |all|
    ensures Ascending(all[..k])
    ensures forall e :: e in all[..k] <==> e in all && e.id <= all[k - 1].id
  {
    forall e | e in all && e.id <= all[k - 1].id
      ensures e in all[..k]
    {
      var i :| 0 <= i < |all| && all[i] == e;
      assert i < k;
      assert all[..k][i] == e;
    }
  }

  lemma AscendingConcat(a: seq<Entry>, b: seq<Entry>, bound: int)
    requires Ascending(a) && Ascending(b)
    requires forall e :: e in a ==> e.id <= bound
    requires forall e :: e in b ==> e.id > bound
    ensures Ascending(a + b)
  {
    assert forall i :: 0 <= i < |a| ==> a[i] in a;
    assert forall i :: 0 <= i < |b| ==> b[i] in b;
  }

  lemma PollDelivers(s: State, limit: nat, c0: int, f: Filter, env: Env)
    requires limit >= 1 && Delivered(s, c0, f, env) && s.cursor > 0
    ensures Delivered(Next(s, Poll(limit), f, env), c0, f, env)
  {
    hide Selected, Tail, Limit, Ascending, ValidTable;
    PollTakes(s.t, s.cursor, limit, f, env);
    AscendingConcat(s.got, Limit(Tail(s.t, f, env, s.cursor), limit), s.cursor);
  }

  lemma StepDelivers(s: State, step: Step, c0: int, f: Filter, env: Env)
    requires Enabled(s, step) && Delivered(s, c0, f, env) && (step.Poll? ==> s.cursor > 0)
    ensures Delivered(Next(s, step, f, env), c0, f, env)
  {
    hide Delivered, Next;
    match step
    case Poll(limit) => PollDelivers(s, limit, c0, f, env);
    case PruneRows(cutoff, maxEvents) => PruneDelivers(s, cutoff, maxEvents, c0, f, env);
    case Insert(id, row) => InsertDelivers(s, id, row, c0, f, env);
  }

  lemma PruneDelivers(s: State, cutoff: int, maxEvents: int, c0: int, f: Filter, env: Env)
    requires Delivered(s, c0, f, env)
    ensures Delivered(Next(s, PruneRows(cutoff, maxEvents), f, env), c0, f, env)
  {
    hide Selected, Shown, Prune, ValidTable, Ascending, MaxId, KeepFrom;
    PruneExactly(s.t, cutoff, maxEvents);
  }

  lemma InsertDelivers(s: State, id: int, row: Row, c0: int, f: Filter, env: Env)
    requires Delivered(s, c0, f, env) && id > s.lastId
    ensures Delivered(Next(s, Insert(id, row), f, env), c0, f, env)
  {
    hide Selected, Shown, Ascending;
    ShownAbove(f, env, c0, Entry(id, row));
  }

  lemma ShownAbove(f: Filter, env: Env, lo: int, e: Entry)
    ensures Shown(f, env, lo, e) ==> e.id > lo
  {
  }

  /**
   * Along every run of inserts, prunes and polls the polls deliver the shown rows above the
   * starting cursor in order, none twice, and none that is still stored is skipped.
   */
  lemma {:induction false} RunDelivers(states: seq<State>, steps: seq<Step>, f: Filter, env: Env)
    requires Runs(states, steps, f, env) && Start(states[0])
    ensures Delivered(states[|steps|], states[0].cursor, f, env)
  {
    hide Delivered, Next;
    if |steps| == 0 {
      assert Delivered(states[0], states[0].cursor, f, env) by { StartDelivers(states[0], f, env); }
    } else {
      var n := |steps| - 1;
      RunDelivers(states[..n + 1], steps[..n], f, env);
      CursorStays(states[n], states[0].cursor, f, env);
      StepDelivers(states[n], steps[n], states[0].cursor, f, env);
    }
  }

  lemma CursorStays(s: State, c0: int, f: Filter, env: Env)
    requires Delivered(s, c0, f, env)
    ensures s.cursor >= c0
  {
  }

  lemma StartDelivers(s: State, f: Filter, env: Env)
    requires Start(s)
    ensures Delivered(s, s.cursor, f, env)
  {
  }

  /** When nothing is pruned, the delivered rows are a prefix of all shown rows above the start. */
  lemma PrefixWithoutPruning(s: State, c0: int, f: Filter, env: Env)
    requires Delivered(s, c0, f, env) && s.log == s.t
    ensures s.got <= Tail(s.t, f, env, c0)
  {
    var all := Tail(s.t, f, env, c0);
    TailExactly(s.t, f, env, c0);
    hide Selected, Tail;
    AscendingPrefix(s.got, all, s.cursor);
  }

  /** Two ascending lists with the same entries up to a bound, the first ending there. */
  lemma {:induction false} AscendingPrefix(a: seq<Entry>, b: seq<Entry>, bound: int)
    requires Ascending(a) && Ascending(b)
    requires forall e :: e in a <==> e in b && e.id <= bound
    ensures a <= b
  {
    if |a| > 0 {
      assert a[0] in a && a[0] in b;
      assert b[0] in b && b[0].id <= a[0].id;
      assert b[0] in a;
      forall e
        ensures e in a[1..] <==> e in b[1..] && e.id <= bound
      {
        assert e in a <==> e == a[0] || e in a[1..];
        assert e in b <==> e == b[0] || e in b[1..];
        assert a[0] !in a[1..] && b[0] !in b[1..];
      }
      AscendingPrefix(a[1..], b[1..], bound);
    }
  }

  // ---- from the first poll on --------------------------------------------------------------------

  /**
   * A client that opens on a store with rows: nothing shown lies above the cursor it gets, so from
   * there on its polls are a run like those above.
   */
  lemma OpensCurrent(s: State, limit: nat, f: Filter, env: Env)
    requires limit >= 1 && s.cursor == 0 && s.t != [] && ValidTable(s.t) && MaxId(s.t) <= s.lastId
    ensures var u := Next(s, Poll(limit), f, env);
      Start(u.(log := u.t, got := [])) && forall e :: e in u.t && Selected(f, env, e.row) ==> e.id <= u.cursor
  {
    FirstPollIsCurrent(s.t, 0, f, env, limit);
    hide PollRows, PollCursor, Selected, MaxId;
    assert s.t[0].id >= 1;
    IdsBounded(s.t);
    assert s.t[0] in s.t;
  }

  /** A client that opens on a store without rows. */
  ghost predicate Opened(s: State) {
    s.t == [] && s.log == [] && s.lastId >= 0 && s.cursor == 0 && s.got == []
  }

  /** Does a poll without a cursor take everything there is to show? */
  ghost predicate Fits(t: Table, f: Filter, env: Env, limit: nat) {
    |Tail(t, f, env, 0)| <= limit && forall e :: e in t && Selected(f, env, e.row) ==> e.id > BackfillFloor(t, f)
  }

  /** The newest rows are all rows exactly when the limit is not exceeded. */
  lemma NewestAll(all: seq<Entry>, limit: nat)
    requires Ascending(all)
    ensures (forall e :: e in all ==> e in Newest(all, limit)) <==> |all| <= limit
    ensures Ascending(Newest(all, limit)) && forall e :: e in Newest(all, limit) ==> e in all
  {
    if |all| > limit {
      assert all[0] in all;
    }
  }

  lemma SameTail(t: Table, f: Filter, env: Env)
    requires ValidTable(t) && forall e :: e in t && Selected(f, env, e.row) ==> e.id > BackfillFloor(t, f)
    ensures Tail(t, f, env, BackfillFloor(t, f)) == Tail(t, f, env, 0)
  {
    var a, b := Tail(t, f, env, BackfillFloor(t, f)), Tail(t, f, env, 0);
    TailExactly(t, f, env, BackfillFloor(t, f));
    TailExactly(t, f, env, 0);
    IdsBounded(t);
    hide Tail, Selected, BackfillFloor, ValidTable, Ascending, MaxId;
    AscendingPrefix(a, b, MaxId(t));
    AscendingPrefix(b, a, MaxId(t));
  }

  /** Is everything there is to show among the rows? */
  ghost predicate Takes(t: Table, f: Filter, env: Env, rows: seq<Entry>) {
    forall e :: e in t && Selected(f, env, e.row) ==> e in rows
  }

  lemma FirstPollTakes(t: Table, f: Filter, env: Env, limit: nat)
    requires ValidTable(t)
    ensures var rows := PollRows(t, 0, f, env, limit);
      Ascending(rows) && (forall e :: e in rows ==> e in t && Selected(f, env, e.row)) &&
      (Takes(t, f, env, rows) <==> Fits(t, f, env, limit))
  {
    var all := Tail(t, f, env, BackfillFloor(t, f));
    TailExactly(t, f, env, BackfillFloor(t, f));
    TailExactly(t, f, env, 0);
    NewestAll(all, limit);
    IdsBounded(t);
    if forall e :: e in t && Selected(f, env, e.row) ==> e.id > BackfillFloor(t, f) {
      SameTail(t, f, env);
    }
    hide Tail, Selected, BackfillFloor, ValidTable, Ascending, MaxId, Newest;
  }

  /** A poll without a cursor leaves nothing behind exactly when everything fits. */
  lemma FirstPollDelivers(s: State, limit: nat, f: Filter, env: Env)
    requires limit >= 1 && s.cursor == 0 && Delivered(s, 0, f, env)
    ensures Delivered(Next(s, Poll(limit), f, env), 0, f, env) <==> Fits(s.t, f, env, limit)
  {
    hide PollRows, PollCursor, Fits, MaxId, ValidTable, Ascending, Selected, Takes;
    var u := Next(s, Poll(limit), f, env);
    HeadIn(s.got);
    assert u.got == [] + PollRows(s.t, 0, f, env, limit) == PollRows(s.t, 0, f, env, limit);
    FirstPollTakes(s.t, f, env, limit);
    FirstPollIsCurrent(s.t, 0, f, env, limit);
    IdsBounded(s.t);
    assert Orderly(u, 0, f, env);
    FirstPollGap(u, f, env);
  }

  lemma HeadIn(s: seq<Entry>)
    ensures s == [] || s[0] in s
  {
  }

  lemma FirstPollGap(u: State, f: Filter, env: Env)
    requires ValidTable(u.t) && forall e :: e in u.t && Selected(f, env, e.row) ==> e.id <= u.cursor
    ensures Gapless(u, 0, f, env) <==> Takes(u.t, f, env, u.got)
  {
    hide ValidTable, MaxId, Selected;
    IdsBounded(u.t);
  }

  lemma StepOpens(s: State, step: Step, f: Filter, env: Env)
    requires Enabled(s, step) && Delivered(s, 0, f, env)
    ensures Delivered(Next(s, step, f, env), 0, f, env) <==>
      (step.Poll? && s.cursor == 0 ==> Fits(s.t, f, env, step.limit))
  {
    CursorStays(s, 0, f, env);
    hide Delivered, Next, Fits;
    if step.Poll? && s.cursor == 0 {
      FirstPollDelivers(s, step.limit, f, env);
    } else {
      StepDelivers(s, step, 0, f, env);
    }
  }

  /** If the i-th step is a poll without a cursor, does it take everything there is to show? */
  ghost predicate FitsAt(states: seq<State>, steps: seq<Step>, f: Filter, env: Env, i: nat)
    requires i < |steps| < |states|
  {
    steps[i].Poll? && states[i].cursor == 0 ==> Fits(states[i].t, f, env, steps[i].limit)
  }

  /**
   * From a store without rows on: at every moment of a run everything shown was delivered in order,
   * without repetition and without a gap, if and only if every poll that still has no cursor finds
   * no more to show than its limit, and nothing below the scan cap.
   */
  lemma {:induction false} RunOpens(states: seq<State>, steps: seq<Step>, f: Filter, env: Env, n: nat)
    requires Runs(states, steps, f, env) && Opened(states[0]) && n <= |steps|
    ensures (forall i :: 0 <= i <= n ==> Delivered(states[i], 0, f, env)) <==>
      forall i :: 0 <= i < n ==> FitsAt(states, steps, f, env, i)
  {
    hide Delivered, Next, Fits, Opened;
    if n == 0 {
      OpenedDelivers(states[0], f, env);
    } else {
      RunOpens(states, steps, f, env, n - 1);
      assert states[n - 1 + 1] == Next(states[n - 1], steps[n - 1], f, env);
      if Delivered(states[n - 1], 0, f, env) {
        StepOpens(states[n - 1], steps[n - 1], f, env);
        assert Delivered(states[n], 0, f, env) <==> FitsAt(states, steps, f, env, n - 1);
      }
    }
  }

  lemma OpenedDelivers(s: State, f: Filter, env: Env)
    requires Opened(s)
    ensures Delivered(s, 0, f, env)
  {
  }

  /** What a poll has left behind its cursor is never delivered. */
  lemma {:induction false} NeverLater(states: seq<State>, steps: seq<Step>, f: Filter, env: Env, e: Entry)
    requires Runs(states, steps, f, env) && 0 < states[0].cursor && e.id <= states[0].cursor && e !in states[0].got
    ensures states[|steps|].cursor >= states[0].cursor && e !in states[|steps|].got
  {
    if |steps| > 0 {
      hide Next;
      var n := |steps| - 1;
      NeverLater(states[..n + 1], steps[..n], f, env, e);
      StepLeaves(states[n], steps[n], f, env, e);
    }
  }

  lemma StepLeaves(s: State, step: Step, f: Filter, env: Env, e: Entry)
    requires Enabled(s, step) && 0 < s.cursor && e.id <= s.cursor && e !in s.got
    ensures var u := Next(s, step, f, env); u.cursor >= s.cursor && e !in u.got
  {
    hide Prune, Tail, Shown;
    if step.Poll? {
      var all := Tail(s.t, f, env, s.cursor);
      var rows := Limit(all, step.limit);
      forall d | d in rows
        ensures d.id > s.cursor
      {
        assert d in all;
        TailMember(s.t, f, env, s.cursor, d);
        ShownAbove(f, env, s.cursor, d);
      }
      assert |rows| > 0 ==> rows[|rows| - 1] in rows;
    }
  }

  /** Two rows are inserted into an empty store before a client without a cursor asks for one. */
  function GapSteps(row: Row): seq<Step> {
    [Insert(1, row), Insert(2, row), Poll(1)]
  }

  function GapStates(row: Row, f: Filter, env: Env): seq<State> {
    var s0 := State([], 0, [], 0, []);
    var s1 := Next(s0, Insert(1, row), f, env);
    var s2 := Next(s1, Insert(2, row), f, env);
    [s0, s1, s2, Next(s2, Poll(1), f, env)]
  }

  /** The client gets the second row, the first stays behind its cursor. */
  lemma GapExample(row: Row, f: Filter, env: Env)
    requires Selected(f, env, row)
    ensures var states := GapStates(row, f, env);
      Runs(states, GapSteps(row), f, env) && Opened(states[0]) &&
      Entry(1, row) in states[3].t && Entry(1, row) !in states[3].got && !Delivered(states[3], 0, f, env)
  {
    hide Selected, PollRows, PollCursor, Delivered;
    var a, b := Entry(1, row), Entry(2, row);
    var states := GapStates(row, f, env);
    GapPoll(row, f, env);
    assert states[2].t == [a, b] && states[3].t == [a, b] && states[3].got == [] + [b] == [b];
    GapSeen(states[3], a, f, env);
  }

  lemma GapSeen(s: State, e: Entry, f: Filter, env: Env)
    requires e in s.t && Selected(f, env, e.row) && 0 < e.id <= s.cursor && e !in s.got
    ensures !Delivered(s, 0, f, env)
  {
    hide Orderly, Selected;
    assert Shown(f, env, 0, e);
  }

  lemma GapPoll(row: Row, f: Filter, env: Env)
    requires Selected(f, env, row)
    ensures var t := [Entry(1, row), Entry(2, row)];
      PollRows(t, 0, f, env, 1) == [Entry(2, row)] && PollCursor(t, 0, [Entry(2, row)]) == 2
  {
    hide Selected;
    var a, b := Entry(1, row), Entry(2, row);
    var lo := BackfillFloor([a, b], f);
    assert [a, b][..1] == [a] && [a][..0] == [];
    assert Tail([a], f, env, lo) == [] + [a];
    assert Tail([a, b], f, env, lo) == [] + [a] + [b];
  }
}
