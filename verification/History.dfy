/**
 * The bounded, paged history scan of the store: id floors and ceilings from the
 * time index, a cap on the ids one request examines, and a resume cursor.
 */
module History {
  import opened Wrappers
  import opened Filters

  datatype Entry = Entry(id: int, row: Row)

  /** The events table in the order of its ids. */
  type Table = seq<Entry>

  ghost predicate ValidTable(t: Table) {
    (forall i :: 0 <= i < |t| ==> t[i].id >= 1) &&
    (forall i, j :: 0 <= i < j < |t| ==> t[i].id < t[j].id)
  }

  const WINDOW_ID_MARGIN: nat := 10000

  /** Ids and timestamps run together, up to the margin. */
  ghost predicate Skewed(t: Table) {
    forall i, j :: 0 <= i < |t| && 0 <= j < |t| && t[i].row.ts < t[j].row.ts ==> t[j].id >= t[i].id - WINDOW_ID_MARGIN
  }

  /** A time range and a filter; an open range ends now. */
  datatype Query = Query(start: int, end: Option<int>, filter: Filter, env: Env)

  predicate InRange(q: Query, r: Row) {
    q.start <= r.ts && (q.end.Some? ==> r.ts <= q.end.value)
  }

  predicate Wanted(q: Query, r: Row) {
    InRange(q, r) && Selected(q.filter, q.env, r)
  }

  /** The plain form: every wanted row with lo <= id < hi, newest first. */
  function Found(t: Table, q: Query, lo: int, hi: int): seq<Entry> {
    if |t| == 0 then []
    else
      var e := t[|t| - 1];
      (if Wanted(q, e.row) && lo <= e.id < hi then [e] else []) + Found(t[..|t| - 1], q, lo, hi)
  }

  // ---- one query ----------------------------------------------------------------------

  /** SELECT .. WHERE .. ORDER BY id DESC. */
  function SelectDesc(t: Table, cs: seq<Clause>): seq<Entry> {
    if |t| == 0 then []
    else
      var e := t[|t| - 1];
      (if AllHold(cs, e.id, e.row) then [e] else []) + SelectDesc(t[..|t| - 1], cs)
  }

  function Limit<T>(s: seq<T>, n: nat): seq<T> {
    if |s| <= n then s else s[..n]
  }

  /** SELECT id .. WHERE ts >= lo ORDER BY ts LIMIT 1: the least timestamp, then the least id. */
  function FirstFrom(t: Table, lo: int): Option<Entry> {
    if |t| == 0 then None
    else
      var e, best := t[|t| - 1], FirstFrom(t[..|t| - 1], lo);
      if e.row.ts >= lo && (best.None? || e.row.ts < best.value.row.ts) then Some(e) else best
  }

  /** SELECT COALESCE(MAX(id),0). */
  function MaxId(t: Table): int {
    if |t| == 0 then 0 else t[|t| - 1].id
  }

  datatype Page = Page(rows: seq<Entry>, more: bool, next: Option<int>)

  /** Does the cursor restrict the query?  Zero and below mean no cursor. */
  predicate Active(before: Option<int>) {
    before.Some? && before.value > 0
  }

  /** Where a request starts to scan. */
  function RangeLo(t: Table, q: Query): int {
    var row := FirstFrom(t, q.start);
    if row.Some? then row.value.id - WINDOW_ID_MARGIN else 0
  }

  /** The id ceiling of a bounded range, once the table has rows behind its end. */
  function RangeHi(t: Table, q: Query): Option<int> {
    if q.end.None? then None
    else
      var row := FirstFrom(t, q.end.value + 1);
      if row.Some? then Some(row.value.id + WINDOW_ID_MARGIN) else None
  }

  function Top(t: Table, q: Query, before: Option<int>): int {
    if Active(before) then before.value
    else if RangeHi(t, q).Some? then RangeHi(t, q).value + 1
    else MaxId(t) + 1
  }

  /** Is the number of ids one request examines capped? */
  predicate Capped(q: Query, span: nat) {
    span != 0 && Scanning(q.filter)
  }

  /** Appends a clause and keeps track of what all clauses select. */
  method And(cs: seq<Clause>, c: Clause) returns (r: seq<Clause>)
    ensures r == cs + [c]
    ensures forall id, row :: AllHold(r, id, row) <==> AllHold(cs, id, row) && Holds(c, id, row)
  {
    Push(cs, c);
    r := cs + [c];
  }

  /** Upper bound of the ids a request may return: the ceiling and the cursor. */
  function Ceiling(t: Table, q: Query, before: Option<int>): int {
    var hi := if RangeHi(t, q).Some? then RangeHi(t, q).value + 1 else MaxId(t) + 1;
    if Active(before) && before.value < hi then before.value else hi
  }

  /** The filter, the time range and the cursor. */
  method RangeClauses(q: Query, before: Option<int>) returns (cs: seq<Clause>)
    requires ValidPort(q.env, q.filter.port)
    ensures forall id, row :: AllHold(cs, id, row) <==> Wanted(q, row) && (Active(before) ==> id < before.value)
  {
    cs := FilterClauses(q.filter, q.env);
    hide AllHold, Selected;
    cs := And(cs, TsFrom(q.start));
    if q.end.Some? {
      cs := And(cs, TsTo(q.end.value));
    }
    assert forall id, row :: AllHold(cs, id, row) <==> Wanted(q, row);
    if before.Some? && before.value > 0 {
      cs := And(cs, IdBelow(before.value));
    }
  }

  method QueryRange(t: Table, q: Query, limit: nat, before: Option<int>, span: nat) returns (p: Page)
    requires ValidTable(t) && limit >= 1 && ValidPort(q.env, q.filter.port)
    ensures p == PageOf(t, q, limit, before, span)
  {
    hide AllHold, Wanted, FirstFrom, Scanning, Found, Selected, ValidPort, Ceiling;
    var cs := RangeClauses(q, before);
    var row := FirstFrom(t, q.start);
    var rangeLo := if row.Some? then row.value.id - WINDOW_ID_MARGIN else 0;
    var hi := None;
    if q.end.Some? {
      var rowc := FirstFrom(t, q.end.value + 1);
      if rowc.Some? {
        hi := Some(rowc.value.id + WINDOW_ID_MARGIN);
        cs := And(cs, IdTo(hi.value));
      }
    }
    assert hi == RangeHi(t, q);
    assert forall id, r :: AllHold(cs, id, r) <==>
      Wanted(q, r) && (Active(before) ==> id < before.value) && (hi.Some? ==> id <= hi.value);
    var floor, scannedLo := rangeLo, None;
    if span != 0 && Scanning(q.filter) {
      var top := if before.Some? && before.value > 0 then before.value
                 else if hi.Some? then hi.value + 1 else MaxId(t) + 1;
      scannedLo := Some(if rangeLo < top - span then top - span else rangeLo);
      floor := scannedLo.value;
    }
    if row.Some? || scannedLo.Some? {
      cs := And(cs, IdFrom(floor));
    }
    assert floor == ScanFloor(t, q, before, span);
    var rows := RunQuery(t, q, cs, floor, before, limit);
    if |rows| >= limit {
      p := Page(rows, true, Some(rows[|rows| - 1].id));
    } else if scannedLo.Some? && scannedLo.value > (if rangeLo < 1 then 1 else rangeLo) {
      p := Page(rows, true, scannedLo);
    } else {
      p := Page(rows, false, None);
    }
  }

  /** Runs a query whose clauses are a window of ids over the wanted rows. */
  method RunQuery(t: Table, q: Query, cs: seq<Clause>, floor: int, before: Option<int>, limit: nat)
    returns (rows: seq<Entry>)
    requires ValidTable(t) && limit >= 1
    requires forall id, r :: AllHold(cs, id, r) ==>
      Wanted(q, r) && (Active(before) ==> id < before.value) && (RangeHi(t, q).Some? ==> id <= RangeHi(t, q).value)
    requires forall id, r ::
      id >= floor && Wanted(q, r) && (Active(before) ==> id < before.value) &&
        (RangeHi(t, q).Some? ==> id <= RangeHi(t, q).value) ==>
      AllHold(cs, id, r)
    requires FirstFrom(t, q.start).Some? || floor > 0 ==> forall id, r :: AllHold(cs, id, r) ==> id >= floor
    ensures rows == Limit(Found(t, q, floor, Ceiling(t, q, before)), limit)
  {
    hide AllHold, Wanted;
    forall i | 0 <= i < |t|
      ensures t[i].id <= MaxId(t)
    {
    }
    SelectIsFound(t, q, cs, floor, Ceiling(t, q, before));
    rows := Limit(SelectDesc(t, cs), limit);
  }

  function ScanFloor(t: Table, q: Query, before: Option<int>, span: nat): int {
    if Capped(q, span) && RangeLo(t, q) < Top(t, q, before) - span then Top(t, q, before) - span
    else RangeLo(t, q)
  }

  /** The page of a request, in terms of the plain form. */
  function PageOf(t: Table, q: Query, limit: nat, before: Option<int>, span: nat): Page
    requires limit >= 1
  {
    var floor := ScanFloor(t, q, before, span);
    var rows := Limit(Found(t, q, floor, Ceiling(t, q, before)), limit);
    if |rows| >= limit then Page(rows, true, Some(rows[limit - 1].id))
    else if Capped(q, span) && floor > (if RangeLo(t, q) < 1 then 1 else RangeLo(t, q)) then
      Page(rows, true, Some(floor))
    else Page(rows, false, None)
  }

  ghost predicate Describes(t: Table, q: Query, cs: seq<Clause>, lo: int, hi: int) {
    forall i :: 0 <= i < |t| ==>
      (AllHold(cs, t[i].id, t[i].row) <==> Wanted(q, t[i].row) && lo <= t[i].id < hi)
  }

  lemma {:induction false} SelectIsFound(t: Table, q: Query, cs: seq<Clause>, lo: int, hi: int)
    requires Describes(t, q, cs, lo, hi)
    ensures SelectDesc(t, cs) == Found(t, q, lo, hi)
  {
    if |t| > 0 {
      var s := t[..|t| - 1];
      assert forall i :: 0 <= i < |s| ==> s[i] == t[i];
      hide AllHold, Wanted;
      SelectIsFound(s, q, cs, lo, hi);
    }
  }

  // ---- what the plain form is ------------------------------------------------------------

  ghost predicate Descending(s: seq<Entry>) {
    forall i, j :: 0 <= i < j < |s| ==> s[i].id > s[j].id
  }

  lemma {:induction false} FoundMember(t: Table, q: Query, lo: int, hi: int, d: Entry)
    ensures d in Found(t, q, lo, hi) <==> d in t && Wanted(q, d.row) && lo <= d.id < hi
  {
    hide Wanted;
    if |t| > 0 {
      var e, s := t[|t| - 1], t[..|t| - 1];
      FoundMember(s, q, lo, hi, d);
      assert d in t <==> d in s || d == e;
    }
  }

  lemma {:induction false} FoundDescending(t: Table, q: Query, lo: int, hi: int)
    requires ValidTable(t)
    ensures Descending(Found(t, q, lo, hi))
  {
    if |t| > 0 {
      hide Wanted;
      var e, s := t[|t| - 1], t[..|t| - 1];
      var f := Found(s, q, lo, hi);
      FoundDescending(s, q, lo, hi);
      forall i | 0 <= i < |f|
        ensures f[i].id < e.id
      {
        FoundMember(s, q, lo, hi, f[i]);
        assert f[i] in f;
        var j :| 0 <= j < |s| && s[j] == f[i];
        assert t[j] == s[j];
      }
    }
  }

  /** Found lists exactly the wanted rows of the window, strictly descending. */
  lemma FoundExactly(t: Table, q: Query, lo: int, hi: int)
    requires ValidTable(t)
    ensures forall e :: e in Found(t, q, lo, hi) <==> e in t && Wanted(q, e.row) && lo <= e.id < hi
    ensures Descending(Found(t, q, lo, hi))
  {
    forall e
      ensures e in Found(t, q, lo, hi) <==> e in t && Wanted(q, e.row) && lo <= e.id < hi
    {
      FoundMember(t, q, lo, hi, e);
    }
    FoundDescending(t, q, lo, hi);
  }

  /** Windows that hold the same wanted rows list the same. */
  lemma {:induction false} FoundSame(t: Table, q: Query, lo: int, hi: int, lo': int, hi': int)
    requires forall i :: 0 <= i < |t| && Wanted(q, t[i].row) ==> (lo <= t[i].id < hi <==> lo' <= t[i].id < hi')
    ensures Found(t, q, lo, hi) == Found(t, q, lo', hi')
  {
    if |t| > 0 {
      var s := t[..|t| - 1];
      assert forall i :: 0 <= i < |s| ==> s[i] == t[i];
      hide Wanted;
      FoundSame(s, q, lo, hi, lo', hi');
    }
  }

  lemma {:induction false} FoundNone(t: Table, q: Query, lo: int, hi: int)
    requires forall i :: 0 <= i < |t| ==> !(lo <= t[i].id < hi)
    ensures Found(t, q, lo, hi) == []
  {
    if |t| > 0 {
      var s := t[..|t| - 1];
      assert forall i :: 0 <= i < |s| ==> s[i] == t[i];
      FoundNone(s, q, lo, hi);
    }
  }

  lemma {:induction false} FoundSplit(t: Table, q: Query, lo: int, mid: int, hi: int)
    requires ValidTable(t) && lo <= mid <= hi
    ensures Found(t, q, lo, hi) == Found(t, q, mid, hi) + Found(t, q, lo, mid)
  {
    if |t| > 0 {
      var e, s := t[|t| - 1], t[..|t| - 1];
      assert forall i :: 0 <= i < |s| ==> s[i] == t[i] && s[i].id < e.id;
      hide Wanted;
      FoundSplit(s, q, lo, mid, hi);
      if e.id < mid {
        FoundNone(s, q, mid, hi);
      }
    }
  }

  /** Behind the k-th row of a listing follows the listing of everything below it. */
  lemma FoundRest(t: Table, q: Query, lo: int, hi: int, k: nat)
    requires ValidTable(t) && 0 < k <= |Found(t, q, lo, hi)|
    ensures var n := Found(t, q, lo, hi)[k - 1].id;
      lo <= n < hi && Found(t, q, lo, hi) == Found(t, q, lo, hi)[..k] + Found(t, q, lo, n)
  {
    var f := Found(t, q, lo, hi);
    var n := f[k - 1].id;
    FoundExactly(t, q, lo, hi);
    assert f[k - 1] in f;
    FoundExactly(t, q, n, hi);
    FoundExactly(t, q, lo, n);
    FoundSplit(t, q, lo, n, hi);
    hide Found, Wanted;
    var a, b := Found(t, q, n, hi), Found(t, q, lo, n);
    forall i | 0 <= i < |b|
      ensures b[i].id < n
    {
      assert b[i] in b;
    }
    forall i | 0 <= i < |a|
      ensures a[i].id >= n
    {
      assert a[i] in a;
    }
    assert k < |f| ==> f[k].id < f[k - 1].id;
    assert |a| == k;
  }

  /** The time index finds the least (timestamp, id) at or above a bound, if there is any. */
  lemma {:induction false} FirstFromLeast(t: Table, lo: int)
    requires ValidTable(t)
    ensures FirstFrom(t, lo).None? ==> forall e :: e in t ==> e.row.ts < lo
    ensures FirstFrom(t, lo).Some? ==> var b := FirstFrom(t, lo).value;
      b in t && b.row.ts >= lo &&
      forall e :: e in t && e.row.ts >= lo ==> b.row.ts < e.row.ts || (b.row.ts == e.row.ts && b.id <= e.id)
  {
    if |t| > 0 {
      var e, s := t[|t| - 1], t[..|t| - 1];
      FirstFromLeast(s, lo);
      assert t == s + [e];
      forall d | d in s
        ensures d.id < e.id
      {
        var i :| 0 <= i < |s| && s[i] == d;
      }
    }
  }

  /** Under the skew assumption no wanted row lies outside the id window of the time index. */
  lemma WindowSafe(t: Table, q: Query, e: Entry)
    requires ValidTable(t) && Skewed(t) && e in t && InRange(q, e.row)
    ensures e.id >= RangeLo(t, q) && 1 <= e.id <= MaxId(t)
    ensures RangeHi(t, q).Some? ==> e.id <= RangeHi(t, q).value
  {
    FirstFromLeast(t, q.start);
    if q.end.Some? {
      FirstFromLeast(t, q.end.value + 1);
    }
    var i :| 0 <= i < |t| && t[i] == e;
    hide FirstFrom;
  }

  // ---- one page refines the plain form ----------------------------------------------------

  /** Everything a client has not seen yet, in the order it will see it. */
  function Remaining(t: Table, q: Query, before: Option<int>): seq<Entry> {
    Found(t, q, 1, Top(t, q, before))
  }

  /** Every wanted row, newest first. */
  function Everything(t: Table, q: Query): seq<Entry> {
    Found(t, q, 1, MaxId(t) + 1)
  }

  lemma TopPositive(t: Table, q: Query, before: Option<int>)
    requires ValidTable(t)
    ensures Top(t, q, before) >= 1
  {
    if q.end.Some? {
      FirstFromLeast(t, q.end.value + 1);
    }
  }

  /** What the page query sees is what remains above the scan floor. */
  lemma PageWindow(t: Table, q: Query, before: Option<int>, span: nat)
    requires ValidTable(t) && Skewed(t)
    ensures var floor := ScanFloor(t, q, before, span);
      var f := if floor < 1 then 1 else floor;
      Found(t, q, floor, Ceiling(t, q, before)) == Found(t, q, f, Top(t, q, before)) &&
      (floor <= RangeLo(t, q) || floor <= 1 ==> Found(t, q, f, Top(t, q, before)) == Remaining(t, q, before))
  {
    var floor := ScanFloor(t, q, before, span);
    var f := if floor < 1 then 1 else floor;
    forall i | 0 <= i < |t| && Wanted(q, t[i].row)
      ensures t[i].id >= RangeLo(t, q) && 1 <= t[i].id
      ensures t[i].id < Ceiling(t, q, before) <==> t[i].id < Top(t, q, before)
    {
      WindowSafe(t, q, t[i]);
    }
    hide Wanted, Top, Ceiling, ScanFloor, RangeLo;
    FoundSame(t, q, floor, Ceiling(t, q, before), f, Top(t, q, before));
    if floor <= RangeLo(t, q) || floor <= 1 {
      FoundSame(t, q, f, Top(t, q, before), 1, Top(t, q, before));
    }
  }

  /**
   * One page, then what remains below its cursor, is what remained before it; the cursor is
   * positive and falls; and a page that is not full was cut by the cap, span ids further down.
   */
  lemma PageRefines(t: Table, q: Query, limit: nat, before: Option<int>, span: nat)
    requires ValidTable(t) && Skewed(t) && limit >= 1
    ensures var p := PageOf(t, q, limit, before, span);
      |p.rows| <= limit && (p.more <==> p.next.Some?) &&
      Remaining(t, q, before) == p.rows + (if p.more then Remaining(t, q, p.next) else []) &&
      (p.more ==> 0 < p.next.value < Top(t, q, before)) &&
      (p.more && |p.rows| < limit ==>
        Capped(q, span) && p.next.value == Top(t, q, before) - span > RangeLo(t, q) && p.next.value > 1)
  {
    hide Found, Wanted, Top, RangeLo, ScanFloor, Capped, Skewed, ValidTable, Ceiling;
    var floor, top := ScanFloor(t, q, before, span), Top(t, q, before);
    var f := if floor < 1 then 1 else floor;
    PageWindow(t, q, before, span);
    TopPositive(t, q, before);
    FloorAbove(t, q, before, span);
    var all := Found(t, q, f, top);
    SplitAt(t, q, f, top, limit);
    if |all| >= limit {
      TopOfCursor(t, q, all[limit - 1].id);
    } else if floor > 1 {
      TopOfCursor(t, q, floor);
    }
  }

  /** Where a request starts: below its cursor, or behind the end of the range, or behind the newest row. */
  lemma StartsAt(t: Table, q: Query, before: Option<int>)
    ensures before.Some? && before.value > 0 ==> Top(t, q, before) == before.value
    ensures before.None? || before.value <= 0 ==>
      var later := if q.end.Some? then FirstFrom(t, q.end.value + 1) else None;
      Top(t, q, before) ==
        if later.Some? then later.value.id + 10001 else if t == [] then 1 else t[|t| - 1].id + 1
    ensures RangeLo(t, q) == if FirstFrom(t, q.start).Some? then FirstFrom(t, q.start).value.id - 10000 else 0
  {
    hide FirstFrom;
  }

  /**
   * The cap: with any filter but the device, a request examines at most span ids below its start
   * or the ids down to the start of the range; a page that is not full goes on right there, unless
   * nothing can lie below.
   */
  lemma CapBoundsScan(t: Table, q: Query, limit: nat, before: Option<int>, span: nat)
    requires ValidTable(t) && limit >= 1 && span > 0
    requires q.filter.vendor != "" || q.filter.ip != "" || q.filter.src != "" || q.filter.dst != "" ||
             q.filter.rule != "" || q.filter.proto != "" || q.filter.port != "" || q.filter.action != ""
    ensures var p, cut := PageOf(t, q, limit, before, span), Top(t, q, before) - span;
      (forall e :: e in p.rows ==> e.id >= cut && e.id >= RangeLo(t, q)) &&
      (|p.rows| < limit ==>
        if cut > RangeLo(t, q) && cut > 1 then p.more && p.next == Some(cut) else !p.more && p.next == None)
  {
    hide Top, RangeLo, Found, Ceiling;
    var floor := ScanFloor(t, q, before, span);
    FoundExactly(t, q, floor, Ceiling(t, q, before));
  }

  /** Without a span, or with no filter but the device, a page that is not full is the last one. */
  lemma NoCapNoCut(t: Table, q: Query, limit: nat, before: Option<int>, span: nat)
    requires limit >= 1 && (span > 0 ==> q.filter == Filter(q.filter.device, "", "", "", "", "", "", "", ""))
    ensures var p := PageOf(t, q, limit, before, span);
      |p.rows| < limit ==> !p.more && p.next == None
  {
    hide Found, Top, RangeLo, Ceiling;
  }

  lemma TopOfCursor(t: Table, q: Query, n: int)
    requires n > 0
    ensures Top(t, q, Some(n)) == n
  {
  }

  /** A scan floor above the range comes from the cap. */
  lemma FloorAbove(t: Table, q: Query, before: Option<int>, span: nat)
    ensures var floor := ScanFloor(t, q, before, span);
      floor >= RangeLo(t, q) &&
      (floor > RangeLo(t, q) ==> Capped(q, span) && span > 0 && floor == Top(t, q, before) - span)
  {
    hide RangeLo, Top, Scanning;
  }

  /** A window above a floor, cut after limit rows or at the floor. */
  lemma SplitAt(t: Table, q: Query, f: int, top: int, limit: nat)
    requires ValidTable(t) && limit >= 1 && f >= 1 && top >= 1
    ensures var all := Found(t, q, f, top);
      (f <= top ==> Found(t, q, 1, top) == all + Found(t, q, 1, f)) &&
      (|all| >= limit ==> var n := all[limit - 1].id;
        f <= n < top && Found(t, q, 1, top) == all[..limit] + Found(t, q, 1, n))
  {
    hide Found, Wanted, ValidTable;
    var all := Found(t, q, f, top);
    if f <= top {
      FoundSplit(t, q, 1, f, top);
    }
    if |all| >= limit {
      FoundRest(t, q, f, top, limit);
      var n := all[limit - 1].id;
      FoundSplit(t, q, 1, f, n);
      var mid, low := Found(t, q, f, n), Found(t, q, 1, f);
      assert (all[..limit] + mid) + low == all[..limit] + (mid + low);
    }
  }

  // ---- following the cursor ---------------------------------------------------------------

  /** The table as the successive requests find it. */
  ghost predicate Snapshots(tables: nat -> Table) {
    forall k: nat :: ValidTable(tables(k)) && Skewed(tables(k))
  }

  /** What stays the same from request to request. */
  datatype Client = Client(q: Query, limit: nat, span: nat)

  /** The page that a client's request reads from a table. */
  function PageFor(t: Table, c: Client, before: Option<int>): Page
    requires c.limit >= 1
  {
    PageOf(t, c.q, c.limit, before, c.span)
  }

  /** All rows a client gets that passes each cursor back until no more is announced. */
  ghost function Follow(tables: nat -> Table, k: nat, c: Client, before: Option<int>): seq<Entry>
    requires Snapshots(tables) && c.limit >= 1
    decreases if Active(before) then 0 else 1, if Active(before) then before.value else 0
  {
    var p := PageFor(tables(k), c, before);
    PageRefines(tables(k), c.q, c.limit, before, c.span);
    p.rows + if p.more then Follow(tables, k + 1, c, p.next) else []
  }

  /** How many requests that takes. */
  ghost function Requests(tables: nat -> Table, k: nat, c: Client, before: Option<int>): nat
    requires Snapshots(tables) && c.limit >= 1
    decreases if Active(before) then 0 else 1, if Active(before) then before.value else 0
  {
    var p := PageFor(tables(k), c, before);
    PageRefines(tables(k), c.q, c.limit, before, c.span);
    1 + if p.more then Requests(tables, k + 1, c, p.next) else 0
  }

  /** Which of the requests reads the part of the table where an id lies. */
  ghost function ServedBy(tables: nat -> Table, k: nat, c: Client, before: Option<int>, id: int): nat
    requires Snapshots(tables) && c.limit >= 1
    decreases if Active(before) then 0 else 1, if Active(before) then before.value else 0
  {
    var p := PageFor(tables(k), c, before);
    PageRefines(tables(k), c.q, c.limit, before, c.span);
    if p.more && id < p.next.value then ServedBy(tables, k + 1, c, p.next, id) else k
  }

  /** A request returns exactly the wanted rows its snapshot holds between its cursor and the next one. */
  lemma PageStep(t: Table, c: Client, before: Option<int>)
    requires ValidTable(t) && Skewed(t) && c.limit >= 1
    ensures var p := PageFor(t, c, before);
      var next := if p.more then p.next.value else 1;
      1 <= next <= Top(t, c.q, before) && p.rows == Found(t, c.q, next, Top(t, c.q, before))
  {
    hide PageOf, Found, Skewed, ValidTable, Top, Capped;
    var p := PageFor(t, c, before);
    PageRefines(t, c.q, c.limit, before, c.span);
    TopPositive(t, c.q, before);
    if p.more {
      FoundSplit(t, c.q, 1, p.next.value, Top(t, c.q, before));
      TopOfCursor(t, c.q, p.next.value);
      SameHead(p.rows, Found(t, c.q, p.next.value, Top(t, c.q, before)), Found(t, c.q, 1, p.next.value));
    }
  }

  lemma SameHead(a: seq<Entry>, b: seq<Entry>, c: seq<Entry>)
    requires a + c == b + c
    ensures a == b
  {
    assert |a + c| == |b + c|;
    assert a == (a + c)[..|a|] && b == (b + c)[..|b|];
  }

  /** Nothing wanted lies at or above the start of a request without a cursor. */
  lemma BelowTop(t: Table, q: Query, before: Option<int>, e: Entry)
    requires ValidTable(t) && Skewed(t) && e in t && Wanted(q, e.row)
    ensures e.id >= 1 && (e.id < Top(t, q, before) <==> (Active(before) ==> e.id < before.value))
  {
    WindowSafe(t, q, e);
    hide Wanted, Skewed;
  }

  lemma PageMember(t: Table, c: Client, before: Option<int>, e: Entry)
    requires ValidTable(t) && Skewed(t) && c.limit >= 1
    ensures var p := PageFor(t, c, before);
      e in p.rows <==>
      e in t && Wanted(c.q, e.row) && (p.more ==> e.id >= p.next.value) && (Active(before) ==> e.id < before.value)
  {
    hide PageOf, Found, Skewed, ValidTable, Top, Wanted;
    var p := PageFor(t, c, before);
    PageStep(t, c, before);
    PageRefines(t, c.q, c.limit, before, c.span);
    FoundMember(t, c.q, if p.more then p.next.value else 1, Top(t, c.q, before), e);
    if e in t && Wanted(c.q, e.row) {
      BelowTop(t, c.q, before, e);
    }
  }

  /** The next cursor is one, below the last. */
  lemma CursorFalls(t: Table, c: Client, before: Option<int>)
    requires ValidTable(t) && Skewed(t) && c.limit >= 1 && PageFor(t, c, before).more
    ensures var next := PageFor(t, c, before).next;
      Active(next) && (Active(before) ==> next.value < before.value)
  {
    PageRefines(t, c.q, c.limit, before, c.span);
    hide PageOf, Remaining, RangeHi, Skewed, ValidTable, Capped;
  }

  /**
   * Whatever happens to the table between the requests, inserts and retention included: a client
   * gets a row exactly when it is wanted and in the snapshot of the request that reads its part
   * of the table.
   */
  lemma {:induction false} FollowExactly(tables: nat -> Table, k: nat, c: Client, before: Option<int>, e: Entry)
    requires Snapshots(tables) && c.limit >= 1
    ensures e in Follow(tables, k, c, before) <==>
      Wanted(c.q, e.row) && (Active(before) ==> e.id < before.value) &&
      e in tables(ServedBy(tables, k, c, before, e.id))
    decreases if Active(before) then 0 else 1, if Active(before) then before.value else 0
  {
    hide PageFor, Skewed, ValidTable, Wanted;
    PageMember(tables(k), c, before, e);
    if PageFor(tables(k), c, before).more {
      CursorFalls(tables(k), c, before);
      FollowExactly(tables, k + 1, c, PageFor(tables(k), c, before).next, e);
    }
  }

  /** Rows come newest first, none twice, across all pages. */
  lemma {:induction false} FollowDescends(tables: nat -> Table, k: nat, c: Client, before: Option<int>)
    requires Snapshots(tables) && c.limit >= 1
    ensures Descending(Follow(tables, k, c, before))
    decreases if Active(before) then 0 else 1, if Active(before) then before.value else 0
  {
    hide PageFor, Skewed, ValidTable, Top, Wanted, Found, Descending;
    var p := PageFor(tables(k), c, before);
    PageDescends(tables(k), c, before);
    if p.more {
      CursorFalls(tables(k), c, before);
      var rest := Follow(tables, k + 1, c, p.next);
      FollowDescends(tables, k + 1, c, p.next);
      forall a, b | a in p.rows && b in rest
        ensures a.id > b.id
      {
        PageMember(tables(k), c, before, a);
        FollowExactly(tables, k + 1, c, p.next, b);
      }
      DescendingConcat(p.rows, rest);
    } else {
      assert p.rows + [] == p.rows;
    }
  }

  lemma PageDescends(t: Table, c: Client, before: Option<int>)
    requires ValidTable(t) && Skewed(t) && c.limit >= 1
    ensures Descending(PageFor(t, c, before).rows)
  {
    hide Descending, Found, Skewed, ValidTable;
    PageStep(t, c, before);
    var p := PageFor(t, c, before);
    FoundDescending(t, c.q, if p.more then p.next.value else 1, Top(t, c.q, before));
  }

  lemma DescendingConcat(a: seq<Entry>, b: seq<Entry>)
    requires Descending(a) && Descending(b) && forall x, y | x in a && y in b :: x.id > y.id
    ensures Descending(a + b)
  {
    assert forall i :: 0 <= i < |a| ==> a[i] in a;
    assert forall i :: 0 <= i < |b| ==> b[i] in b;
  }

  /** Two descending lists with the same rows are the same. */
  lemma {:induction false} DescendingUnique(a: seq<Entry>, b: seq<Entry>)
    requires Descending(a) && Descending(b) && forall e :: e in a <==> e in b
    ensures a == b
  {
    assert |b| > 0 ==> b[0] in b;
    if |a| > 0 {
      assert a[0] in a && a[0] in b && b[0] in b && b[0] in a;
      assert a == [a[0]] + a[1..] && b == [b[0]] + b[1..];
      forall e
        ensures e in a[1..] <==> e in b[1..]
      {
        assert e in a <==> e == a[0] || e in a[1..];
        assert e in b <==> e == b[0] || e in b[1..];
        assert a[0] !in a[1..] && b[0] !in b[1..];
      }
      DescendingUnique(a[1..], b[1..]);
    }
  }

  // ---- inserts and retention between the requests ------------------------------------------------

  /**
   * lastId(k) is the largest id given out before request k.  Rows may go at any time; new rows get
   * ids above all earlier ones, whether those rows are still there or not.
   */
  ghost predicate Evolving(tables: nat -> Table, lastId: nat -> int) {
    Snapshots(tables) &&
    (forall k: nat :: MaxId(tables(k)) <= lastId(k) <= lastId(k + 1)) &&
    (forall k: nat :: OnlyNewer(tables(k), tables(k + 1), lastId(k)))
  }

  ghost predicate OnlyNewer(t: Table, u: Table, last: int) {
    forall e :: e in u ==> e in t || e.id > last
  }

  /** Nothing changes between the requests. */
  ghost predicate Constant(tables: nat -> Table) {
    forall k: nat :: tables(k) == tables(0)
  }

  /** No row goes between the requests. */
  ghost predicate Keeping(tables: nat -> Table) {
    forall k: nat, e :: e in tables(k) ==> e in tables(k + 1)
  }

  /** Either nothing changes between the requests, or the scan cap exceeds the id margin. */
  ghost predicate Steady(tables: nat -> Table, c: Client) {
    !Capped(c.q, c.span) || c.span > WINDOW_ID_MARGIN || Constant(tables)
  }

  lemma {:induction false} OldRows(tables: nat -> Table, lastId: nat -> int, k: nat, e: Entry)
    requires Evolving(tables, lastId) && e in tables(k) && e.id <= lastId(0)
    ensures e in tables(0)
  {
    if k > 0 {
      LastIdRises(tables, lastId, k - 1);
      assert OnlyNewer(tables(k - 1), tables(k - 1 + 1), lastId(k - 1));
      OldRows(tables, lastId, k - 1, e);
    }
  }

  lemma {:induction false} LastIdRises(tables: nat -> Table, lastId: nat -> int, k: nat)
    requires Evolving(tables, lastId)
    ensures lastId(0) <= lastId(k)
  {
    if k > 0 {
      LastIdRises(tables, lastId, k - 1);
      assert lastId(k - 1) <= lastId(k - 1 + 1);
    }
  }

  lemma {:induction false} KeepsRows(tables: nat -> Table, k: nat, e: Entry)
    requires Keeping(tables) && e in tables(0)
    ensures e in tables(k)
  {
    if k > 0 {
      KeepsRows(tables, k - 1, e);
      assert e in tables(k - 1 + 1);
    }
  }

  lemma FullPageCursor(t: Table, q: Query, lo: int, hi: int, k: nat)
    requires ValidTable(t) && k < |Found(t, q, lo, hi)|
    ensures Found(t, q, lo, hi)[k].id <= MaxId(t)
  {
    FoundExactly(t, q, lo, hi);
    hide Wanted, Found;
    var e := Found(t, q, lo, hi)[k];
    assert e in Found(t, q, lo, hi);
    var i :| 0 <= i < |t| && t[i] == e;
  }

  /** The first cursor does not point above the rows of the snapshot it comes from. */
  lemma CursorInTable(t: Table, c: Client, before: Option<int>)
    requires ValidTable(t) && Skewed(t) && c.limit >= 1 && !Active(before)
    requires !Capped(c.q, c.span) || c.span > WINDOW_ID_MARGIN
    ensures var p := PageFor(t, c, before); p.more ==> p.next.value <= MaxId(t) + 1
  {
    hide Found, Wanted, FirstFrom, Scanning, Skewed;
    PageRefines(t, c.q, c.limit, before, c.span);
    if c.q.end.Some? {
      FirstFromLeast(t, c.q.end.value + 1);
      assert forall e :: e in t ==> e.id <= MaxId(t);
    }
    var floor, hi := ScanFloor(t, c.q, before, c.span), Ceiling(t, c.q, before);
    if |Found(t, c.q, floor, hi)| >= c.limit {
      FullPageCursor(t, c.q, floor, hi, c.limit - 1);
    }
  }

  /** What a client gets was there at its first request. */
  lemma FollowIsOld(tables: nat -> Table, lastId: nat -> int, c: Client, before: Option<int>, e: Entry)
    requires Evolving(tables, lastId) && Steady(tables, c) && c.limit >= 1 && !Active(before)
    requires e in tables(ServedBy(tables, 0, c, before, e.id))
    ensures e in tables(0)
  {
    var j := ServedBy(tables, 0, c, before, e.id);
    if j != 0 && !Constant(tables) {
      hide PageFor, Capped, Skewed, ValidTable;
      CursorInTable(tables(0), c, before);
      assert MaxId(tables(0)) <= lastId(0);
      OldRows(tables, lastId, j, e);
    }
  }

  /**
   * With rows inserted and pruned between the requests, following the cursor gives, newest first
   * and once each, the wanted rows of the first snapshot that survive until their page is read.
   */
  lemma FollowSurvivors(tables: nat -> Table, lastId: nat -> int, c: Client, before: Option<int>)
    requires Evolving(tables, lastId) && Steady(tables, c) && c.limit >= 1 && !Active(before)
    ensures var got := Follow(tables, 0, c, before);
      Descending(got) &&
      forall e :: e in got <==>
        Wanted(c.q, e.row) && e in tables(0) && e in tables(ServedBy(tables, 0, c, before, e.id))
  {
    FollowDescends(tables, 0, c, before);
    hide Wanted, Follow, ServedBy, Descending, Steady;
    forall e
      ensures e in Follow(tables, 0, c, before) <==>
        Wanted(c.q, e.row) && e in tables(0) && e in tables(ServedBy(tables, 0, c, before, e.id))
    {
      FollowExactly(tables, 0, c, before, e);
      if e in tables(ServedBy(tables, 0, c, before, e.id)) {
        FollowIsOld(tables, lastId, c, before, e);
      }
    }
  }

  /** When no row goes, that is every wanted row of the first snapshot. */
  lemma FollowIsEverything(tables: nat -> Table, lastId: nat -> int, c: Client, before: Option<int>)
    requires Evolving(tables, lastId) && Keeping(tables) && Steady(tables, c) && c.limit >= 1 && !Active(before)
    ensures Follow(tables, 0, c, before) == Everything(tables(0), c.q)
    ensures forall e :: e in Follow(tables, 0, c, before) <==> Wanted(c.q, e.row) && e in tables(0)
  {
    hide Wanted, Follow, ServedBy, Steady, Descending, Found, Keeping;
    FollowDescends(tables, 0, c, before);
    FoundDescending(tables(0), c.q, 1, MaxId(tables(0)) + 1);
    forall e
      ensures e in Follow(tables, 0, c, before) <==> Wanted(c.q, e.row) && e in tables(0)
      ensures e in Everything(tables(0), c.q) <==> Wanted(c.q, e.row) && e in tables(0)
    {
      GotMember(tables, lastId, c, before, e);
    }
    DescendingUnique(Follow(tables, 0, c, before), Everything(tables(0), c.q));
  }

  lemma GotMember(tables: nat -> Table, lastId: nat -> int, c: Client, before: Option<int>, e: Entry)
    requires Evolving(tables, lastId) && Keeping(tables) && Steady(tables, c) && c.limit >= 1 && !Active(before)
    ensures e in Follow(tables, 0, c, before) <==> Wanted(c.q, e.row) && e in tables(0)
    ensures e in Everything(tables(0), c.q) <==> Wanted(c.q, e.row) && e in tables(0)
  {
    hide Wanted, Follow, ServedBy, Steady, Found, Keeping;
    var t := tables(0);
    FollowExactly(tables, 0, c, before, e);
    FoundMember(t, c.q, 1, MaxId(t) + 1, e);
    if e in tables(ServedBy(tables, 0, c, before, e.id)) {
      FollowIsOld(tables, lastId, c, before, e);
    }
    if e in t {
      KeepsRows(tables, ServedBy(tables, 0, c, before, e.id), e);
      IdInTable(t, e);
    }
  }

  lemma IdInTable(t: Table, e: Entry)
    requires ValidTable(t) && e in t
    ensures 1 <= e.id < MaxId(t) + 1
  {
  }

  // ---- the export ----------------------------------------------------------------------------

  const CSV_PAGE: nat := 10000

  /** The export asks for full pages until the last one, with the scan cap off. */
  function Exporter(q: Query): Client {
    Client(q, CSV_PAGE, 0)
  }

  /** The CSV export writes exactly the first limit rows of what following the cursor gives. */
  method StreamCsv(tables: nat -> Table, q: Query, limit: nat) returns (written: seq<Entry>)
    requires Snapshots(tables) && ValidPort(q.env, q.filter.port)
    ensures written == Limit(Follow(tables, 0, Exporter(q), None), limit)
  {
    hide Follow, PageOf, ValidPort, ValidTable, Skewed;
    var before: Option<int>, sent, k := None, 0, 0;
    written := [];
    ghost var all := Follow(tables, 0, Exporter(q), None);
    assert [] + all == all;
    while sent < limit
      invariant sent == |written| <= limit
      invariant sent < limit ==> written + Follow(tables, k, Exporter(q), before) == all
      invariant sent == limit ==> written == Limit(all, limit)
      decreases limit - sent
    {
      var page := if CSV_PAGE < limit - sent then CSV_PAGE else limit - sent;
      var p := QueryRange(tables(k), q, page, before, 0);
      CsvStep(tables, k, q, page, before);
      ghost var rest := Follow(tables, k, Exporter(q), before);
      assert forall s :: s <= rest ==> written + s <= written + rest;
      written := written + p.rows;
      sent := sent + |p.rows|;
      if !p.more || |p.rows| == 0 {
        break;
      }
      if sent < limit {
        assert rest == p.rows + Follow(tables, k + 1, Exporter(q), p.next);
      }
      before := p.next;
      k := k + 1;
    }
  }

  /** A page of the export is a full one, or the beginning of one that completes the export, or the last. */
  lemma CsvStep(tables: nat -> Table, k: nat, q: Query, page: nat, before: Option<int>)
    requires Snapshots(tables) && 1 <= page <= CSV_PAGE
    ensures var p := PageOf(tables(k), q, page, before, 0);
      var rest := Follow(tables, k, Exporter(q), before);
      p.rows <= rest && |p.rows| <= page && (p.more ==> |p.rows| == page) && (!p.more ==> p.rows == rest) &&
      (p.more && page == CSV_PAGE ==> rest == p.rows + Follow(tables, k + 1, Exporter(q), p.next))
  {
    hide Found, Skewed, ValidTable, FirstFrom, Scanning, RangeHi;
    var p, full := PageOf(tables(k), q, page, before, 0), PageOf(tables(k), q, CSV_PAGE, before, 0);
    assert Follow(tables, k, Exporter(q), before) ==
      full.rows + if full.more then Follow(tables, k + 1, Exporter(q), full.next) else [];
    hide Follow;
    if !full.more {
      assert full.rows + [] == full.rows;
    }
    assert p.rows <= full.rows;
  }

  /** When no row goes meanwhile, those are the first limit rows of the first snapshot's listing. */
  lemma ExportIsEverything(tables: nat -> Table, lastId: nat -> int, q: Query, limit: nat)
    requires Evolving(tables, lastId) && Keeping(tables)
    ensures Limit(Follow(tables, 0, Exporter(q), None), limit) == Limit(Everything(tables(0), q), limit)
  {
    FollowIsEverything(tables, lastId, Exporter(q), None);
  }

  // ---- how many requests ----------------------------------------------------------------------

  /** n divided by d, rounded up. */
  function CeilDiv(n: int, d: nat): nat
    requires d >= 1
    decreases if n <= 0 then 0 else n
  {
    if n <= 0 then 0 else CeilDiv(n - d, d) + 1
  }

  /** n divided by d, rounded down. */
  function FloorDiv(n: nat, d: nat): nat
    requires d >= 1
  {
    if n < d then 0 else FloorDiv(n - d, d) + 1
  }

  lemma {:induction false} CeilMonotone(n: int, m: int, d: nat)
    requires d >= 1 && n <= m
    ensures CeilDiv(n, d) <= CeilDiv(m, d)
    decreases if m <= 0 then 0 else m
  {
    if n > 0 {
      CeilMonotone(n - d, m - d, d);
    }
  }

  lemma {:induction false} FloorMonotone(n: nat, m: nat, d: nat)
    requires d >= 1 && n <= m
    ensures FloorDiv(n, d) <= FloorDiv(m, d)
  {
    if n >= d {
      FloorMonotone(n - d, m - d, d);
    }
  }

  /**
   * How many requests following the cursor takes, whatever happens to the table meanwhile: lo is
   * any bound, at least 1, that no snapshot's scan start lies below.
   */
  lemma {:induction false} RequestsBound(tables: nat -> Table, k: nat, c: Client, before: Option<int>, lo: int)
    requires Snapshots(tables) && c.limit >= 1
    requires lo == 1 || (lo > 1 && forall j: nat :: lo <= RangeLo(tables(j), c.q))
    ensures Requests(tables, k, c, before) <=
      (if Capped(c.q, c.span) then CeilDiv(Top(tables(k), c.q, before) - lo, c.span) else 0) +
      FloorDiv(|Follow(tables, k, c, before)|, c.limit) + 1
    decreases if Active(before) then 0 else 1, if Active(before) then before.value else 0
  {
    hide Found, PageOf, Wanted, Scanning, RangeLo, Skewed, ValidTable, Remaining;
    var p, top := PageFor(tables(k), c, before), Top(tables(k), c.q, before);
    PageRefines(tables(k), c.q, c.limit, before, c.span);
    if p.more {
      TopOfCursor(tables(k + 1), c.q, p.next.value);
      RequestsBound(tables, k + 1, c, p.next, lo);
      var rest := |Follow(tables, k + 1, c, p.next)|;
      if |p.rows| == c.limit {
        if Capped(c.q, c.span) {
          CeilMonotone(p.next.value - lo, top - lo, c.span);
        }
      } else {
        FloorMonotone(rest, rest + |p.rows|, c.limit);
      }
    }
  }
}
