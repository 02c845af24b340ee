/**
 * The country tables: compiling address ranges to fixed-width records, loading
 * them, and looking an address up by bisection.
 */
module Geo {
  import opened Wrappers

  type Octet = n: nat | n < 256

  /** A country code: the filter on the delegation files lets exactly two ASCII letters through. */
  type Country = s: seq<Octet> | |s| == 2 witness [65, 65]

  /** An inclusive address range with its code. */
  datatype Range = Range(first: int, last: int, cc: Country)

  predicate In(n: int, r: Range) {
    r.first <= n <= r.last
  }

  function Pow256(w: nat): (p: nat)
    ensures p >= 1
  {
    if w == 0 then 1 else 256 * Pow256(w - 1)
  }

  /** A number in w octets, most significant first. */
  function BigEndian(n: nat, w: nat): (s: seq<Octet>)
    ensures |s| == w
  {
    if w == 0 then [] else BigEndian(n / 256, w - 1) + [n % 256]
  }

  lemma {:induction false} BigEndianDigit(n: nat, w: nat, i: nat)
    requires i < w
    ensures BigEndian(n, w)[i] == n / Pow256(w - 1 - i) % 256
  {
    if i < w - 1 {
      BigEndianDigit(n / 256, w - 1, i);
      DivideTwice(n, Pow256(w - 2 - i));
    }
  }

  lemma DivideTwice(n: nat, p: nat)
    requires p >= 1
    ensures n / 256 / p == n / (256 * p)
  {
    var q := n / (256 * p);
    var r := n - q * (256 * p);
    assert n / 256 == q * p + r / 256;
    assert r / 256 < p;
    QuotientIs(n / 256, p, q, r / 256);
  }

  lemma QuotientIs(a: nat, p: nat, q: nat, r: nat)
    requires a == q * p + r && r < p
    ensures a / p == q
  {
    var d := a / p - q;
    assert a == a / p * p + a % p;
    assert d * p == r - a % p;
    TimesSign(d, p);
  }

  function Unpack(s: seq<Octet>): nat {
    if |s| == 0 then 0 else 256 * Unpack(s[..|s| - 1]) + s[|s| - 1]
  }

  lemma {:induction false} UnpackBigEndian(n: nat, w: nat)
    requires n < Pow256(w)
    ensures Unpack(BigEndian(n, w)) == n
  {
    if w > 0 {
      UnpackBigEndian(n / 256, w - 1);
      assert BigEndian(n, w)[..w - 1] == BigEndian(n / 256, w - 1);
    }
  }

  // ---- compiling ----------------------------------------------------------------------------

  /** Does the packing accept the range?  It raises on a bound that does not fit the width. */
  predicate Packable(r: Range, w: nat) {
    0 <= r.first < Pow256(w) && 0 <= r.last < Pow256(w)
  }

  function Record(r: Range, w: nat): (s: seq<Octet>)
    requires Packable(r, w)
    ensures |s| == 2 * w + 2
  {
    BigEndian(r.first, w) + BigEndian(r.last, w) + r.cc
  }

  /** A record of the IPv4 table. */
  lemma RecordExample(de: Country)
    ensures var r := Range(0x0A01_02FF, 0x0A01_0AFE, de);
      Packable(r, 4) && Record(r, 4) == [10, 1, 2, 255, 10, 1, 10, 254] + de
  {
    assert Pow256(4) == 0x1_0000_0000;
    assert BigEndian(10, 1) == [10] && BigEndian(0x0A01, 2) == [10, 1];
    assert BigEndian(0x0A01_02, 3) == [10, 1, 2] && BigEndian(0x0A01_0A, 3) == [10, 1, 10];
  }

  /** The ranges that start behind the end of the last one taken. */
  function Kept(ranges: seq<Range>): seq<Range> {
    if |ranges| == 0 then []
    else
      var before, r := Kept(ranges[..|ranges| - 1]), ranges[|ranges| - 1];
      if r.first <= End(before) then before else before + [r]
  }

  function End(kept: seq<Range>): int {
    if |kept| == 0 then -1 else kept[|kept| - 1].last
  }

  function Encode(kept: seq<Range>, w: nat): (raw: seq<Octet>)
    requires forall i :: 0 <= i < |kept| ==> Packable(kept[i], w)
    ensures |raw| == |kept| * (2 * w + 2)
  {
    if |kept| == 0 then [] else Encode(kept[..|kept| - 1], w) + Record(kept[|kept| - 1], w)
  }

  /** The writer: w is 4 for IPv4 and 16 for IPv6; None when the packing raises. */
  method WriteTable(ranges: seq<Range>, w: nat) returns (raw: Option<seq<Octet>>)
    ensures raw.Some? <==> forall i :: 0 <= i < |Kept(ranges)| ==> Packable(Kept(ranges)[i], w)
    ensures raw.Some? ==> raw.value == Encode(Kept(ranges), w)
  {
    var buf: seq<Octet> := [];
    var prevEnd := -1;
    for i := 0 to |ranges|
      invariant prevEnd == End(Kept(ranges[..i]))
      invariant forall k :: 0 <= k < |Kept(ranges[..i])| ==> Packable(Kept(ranges[..i])[k], w)
      invariant buf == Encode(Kept(ranges[..i]), w)
    {
      assert ranges[..i + 1][..i] == ranges[..i];
      var r := ranges[i];
      if r.first <= prevEnd {
        continue;
      }
      if !Packable(r, w) {
        KeptPrefix(ranges, i + 1);
        assert Kept(ranges)[|Kept(ranges[..i])|] == r;
        return None;
      }
      buf := buf + Record(r, w);
      prevEnd := r.last;
    }
    assert ranges[..|ranges|] == ranges;
    raw := Some(buf);
  }

  lemma {:induction false} KeptPrefix(ranges: seq<Range>, k: nat)
    requires k <= |ranges|
    ensures Kept(ranges[..k]) <= Kept(ranges)
  {
    if k < |ranges| {
      KeptPrefix(ranges[..|ranges| - 1], k);
      assert ranges[..|ranges| - 1][..k] == ranges[..k];
    } else {
      assert ranges[..k] == ranges;
    }
  }

  // ---- loading --------------------------------------------------------------------------------

  /** The parallel arrays of a loaded table. */
  datatype Table = Table(first: seq<int>, last: seq<int>, cc: seq<Country>)

  function TableOf(kept: seq<Range>): Table {
    Table(seq(|kept|, i requires 0 <= i < |kept| => kept[i].first),
          seq(|kept|, i requires 0 <= i < |kept| => kept[i].last),
          seq(|kept|, i requires 0 <= i < |kept| => kept[i].cc))
  }

  /** The range stored in a record. */
  function Decode(rec: seq<Octet>, w: nat): Range
    requires |rec| == 2 * w + 2
  {
    Range(Unpack(rec[..w]), Unpack(rec[w..2 * w]), rec[2 * w..])
  }

  /** The first n records. */
  function DecodeAll(raw: seq<Octet>, w: nat, n: nat): (r: seq<Range>)
    requires n * (2 * w + 2) <= |raw|
    ensures |r| == n
  {
    if n == 0 then []
    else
      var size := 2 * w + 2;
      assert n * size == (n - 1) * size + size && (n - 1) * size >= 0;
      DecodeAll(raw, w, n - 1) + [Decode(raw[(n - 1) * size..n * size], w)]
  }

  lemma RecordFits(i: nat, size: nat, total: nat)
    requires size >= 1 && i < total / size
    ensures (i + 1) * size == i * size + size <= total
  {
    assert (i + 1) * size <= total / size * size;
  }

  /** The loader: as many whole records as the data holds. */
  method LoadTable(raw: seq<Octet>, w: nat) returns (t: Table)
    ensures |raw| / (2 * w + 2) * (2 * w + 2) <= |raw|
    ensures t == TableOf(DecodeAll(raw, w, |raw| / (2 * w + 2)))
  {
    hide Unpack, DecodeAll, TableOf, Decode;
    var size := 2 * w + 2;
    var n := |raw| / size;
    t := Table([], [], []);
    NoRecords(raw, w);
    for i := 0 to n
      invariant i * size <= |raw|
      invariant t == TableOf(DecodeAll(raw, w, i))
    {
      RecordFits(i, size, |raw|);
      var rec := raw[i * size..(i + 1) * size];
      LoadNext(raw, w, i);
      t := Table(t.first + [Unpack(rec[..w])], t.last + [Unpack(rec[w..2 * w])], t.cc + [rec[2 * w..]]);
    }
  }

  lemma LoadNext(raw: seq<Octet>, w: nat, i: nat)
    requires (i + 1) * (2 * w + 2) == i * (2 * w + 2) + (2 * w + 2) <= |raw|
    ensures var size := 2 * w + 2;
      var rec, t := raw[i * size..(i + 1) * size], TableOf(DecodeAll(raw, w, i));
      TableOf(DecodeAll(raw, w, i + 1)) ==
        Table(t.first + [Unpack(rec[..w])], t.last + [Unpack(rec[w..2 * w])], t.cc + [rec[2 * w..]])
  {
    hide Unpack, DecodeAll, TableOf, Decode;
    var size := 2 * w + 2;
    NextRecord(raw, w, i);
    PushRecord(DecodeAll(raw, w, i), raw[i * size..(i + 1) * size], w);
  }

  lemma PushRecord(kept: seq<Range>, rec: seq<Octet>, w: nat)
    requires |rec| == 2 * w + 2
    ensures var t := TableOf(kept);
      TableOf(kept + [Decode(rec, w)]) ==
        Table(t.first + [Unpack(rec[..w])], t.last + [Unpack(rec[w..2 * w])], t.cc + [rec[2 * w..]])
  {
    hide Unpack, TableOf, Decode;
    TableOfPush(kept, Decode(rec, w));
    DecodeParts(rec, w);
  }

  lemma NoRecords(raw: seq<Octet>, w: nat)
    ensures 0 * (2 * w + 2) <= |raw| && TableOf(DecodeAll(raw, w, 0)) == Table([], [], [])
  {
  }

  lemma NextRecord(raw: seq<Octet>, w: nat, n: nat)
    requires (n + 1) * (2 * w + 2) == n * (2 * w + 2) + (2 * w + 2) <= |raw|
    ensures var size := 2 * w + 2;
      n * size >= 0 && DecodeAll(raw, w, n + 1) == DecodeAll(raw, w, n) + [Decode(raw[n * size..(n + 1) * size], w)]
  {
    hide Decode;
  }

  lemma DecodeParts(rec: seq<Octet>, w: nat)
    requires |rec| == 2 * w + 2
    ensures var r := Decode(rec, w);
      r.first == Unpack(rec[..w]) && r.last == Unpack(rec[w..2 * w]) && r.cc == rec[2 * w..]
  {
    hide Unpack;
  }

  lemma TableOfPush(kept: seq<Range>, r: Range)
    ensures var t := TableOf(kept);
      TableOf(kept + [r]) == Table(t.first + [r.first], t.last + [r.last], t.cc + [r.cc])
  {
  }

  lemma DecodeRecord(r: Range, w: nat)
    requires Packable(r, w)
    ensures Decode(Record(r, w), w) == r
  {
    UnpackBigEndian(r.first, w);
    UnpackBigEndian(r.last, w);
    hide BigEndian, Unpack;
    var rec := Record(r, w);
    assert rec[..w] == BigEndian(r.first, w);
    assert rec[w..2 * w] == BigEndian(r.last, w);
    assert rec[2 * w..] == r.cc;
  }

  lemma {:induction false} DecodePrefix(raw: seq<Octet>, more: seq<Octet>, w: nat, n: nat)
    requires n * (2 * w + 2) <= |raw|
    ensures n * (2 * w + 2) <= |raw + more| && DecodeAll(raw + more, w, n) == DecodeAll(raw, w, n)
  {
    if n > 0 {
      var size := 2 * w + 2;
      assert n * size == (n - 1) * size + size && (n - 1) * size >= 0;
      DecodePrefix(raw, more, w, n - 1);
      assert (raw + more)[(n - 1) * size..n * size] == raw[(n - 1) * size..n * size];
    }
  }

  lemma DecodePush(raw: seq<Octet>, rec: seq<Octet>, w: nat, n: nat)
    requires |raw| == n * (2 * w + 2) && |rec| == 2 * w + 2
    ensures (n + 1) * (2 * w + 2) == |raw + rec|
    ensures DecodeAll(raw + rec, w, n + 1) == DecodeAll(raw, w, n) + [Decode(rec, w)]
  {
    var size := 2 * w + 2;
    assert (n + 1) * size == n * size + size;
    DecodePrefix(raw, rec, w, n);
    assert (raw + rec)[n * size..(n + 1) * size] == rec;
  }

  /** The written records decode to exactly the ranges that were kept. */
  lemma {:induction false} DecodeEncode(kept: seq<Range>, w: nat)
    requires forall i :: 0 <= i < |kept| ==> Packable(kept[i], w)
    ensures DecodeAll(Encode(kept, w), w, |kept|) == kept
  {
    hide Record, Decode, BigEndian, Pow256, DecodeAll, Packable;
    if |kept| == 0 {
      NothingEncoded(w);
    } else {
      var rest, last := kept[..|kept| - 1], kept[|kept| - 1];
      DecodeEncode(rest, w);
      DecodeEncodePush(rest, last, w);
      hide Encode;
      assert kept == rest + [last];
    }
  }

  lemma NothingEncoded(w: nat)
    ensures Encode([], w) == [] && DecodeAll([], w, 0) == []
  {
  }

  lemma DecodeEncodePush(rest: seq<Range>, last: Range, w: nat)
    requires (forall i :: 0 <= i < |rest| ==> Packable(rest[i], w)) && Packable(last, w)
    requires DecodeAll(Encode(rest, w), w, |rest|) == rest
    ensures forall i :: 0 <= i < |rest + [last]| ==> Packable((rest + [last])[i], w)
    ensures DecodeAll(Encode(rest + [last], w), w, |rest| + 1) == rest + [last]
  {
    hide Record, Decode, BigEndian, Pow256, DecodeAll, Packable;
    assert (rest + [last])[..|rest|] == rest;
    DecodeRecord(last, w);
    DecodePush(Encode(rest, w), Record(last, w), w, |rest|);
  }

  // ---- looking up ---------------------------------------------------------------------------------

  ghost predicate Rising(a: seq<int>) {
    forall i, j :: 0 <= i < j < |a| ==> a[i] <= a[j]
  }

  /** bisect_right: how many entries are not above x. */
  method BisectRight(a: seq<int>, x: int) returns (lo: nat)
    requires Rising(a)
    ensures lo <= |a|
    ensures forall i :: 0 <= i < lo ==> a[i] <= x
    ensures forall i :: lo <= i < |a| ==> a[i] > x
  {
    lo := 0;
    var hi := |a|;
    while lo < hi
      invariant 0 <= lo <= hi <= |a|
      invariant forall i :: 0 <= i < lo ==> a[i] <= x
      invariant forall i :: hi <= i < |a| ==> a[i] > x
    {
      var mid := (lo + hi) / 2;
      if x < a[mid] {
        hi := mid;
      } else {
        lo := mid + 1;
      }
    }
  }

  /** ASCII letters in lower case. */
  function Lower(cc: Country): Country {
    seq(|cc|, i requires 0 <= i < |cc| => if 65 <= cc[i] <= 90 then cc[i] + 32 else cc[i])
  }

  const CAPITALS: string := "ABCDEFGHIJKLMNOPQRSTUVWXYZ"
  const SMALL: string := "abcdefghijklmnopqrstuvwxyz"

  /** Capital letters become small ones, everything else stays. */
  lemma LowerLetters(cc: Country, k: nat, d: nat)
    requires k < 2 && d < 26
    ensures Lower(cc)[k] as char == SMALL[d] <==> cc[k] as char == CAPITALS[d] || cc[k] as char == SMALL[d]
    ensures !('A' <= cc[k] as char <= 'Z') ==> Lower(cc)[k] == cc[k]
  {
    Alphabet(d);
  }

  lemma Alphabet(d: nat)
    requires d < 26
    ensures CAPITALS[d] as int == 65 + d && SMALL[d] as int == 97 + d
  {
  }

  /** The plain form: the code of the first range that contains the address. */
  function Scan(ranges: seq<Range>, n: int): Option<Country> {
    if |ranges| == 0 then None
    else if In(n, ranges[0]) then Some(Lower(ranges[0].cc))
    else Scan(ranges[1..], n)
  }

  /** Kept ranges in the order of the table: each starts behind the end of all earlier ones. */
  ghost predicate Stacked(kept: seq<Range>) {
    forall i, j :: 0 <= i < j < |kept| ==> kept[i].last < kept[j].first && kept[i].first <= kept[j].first
  }

  /** The sort orders ranges by their first address, then by their last. */
  ghost predicate SortedRanges(ranges: seq<Range>) {
    forall i, j :: 0 <= i < j < |ranges| ==>
      ranges[i].first < ranges[j].first || (ranges[i].first == ranges[j].first && ranges[i].last <= ranges[j].last)
  }

  /** A delegation of v addresses from s on; v may be 0. */
  ghost predicate Delegations(ranges: seq<Range>) {
    forall i :: 0 <= i < |ranges| ==> ranges[i].first >= 0 && ranges[i].last >= ranges[i].first - 1
  }

  lemma {:induction false} KeptMembers(ranges: seq<Range>)
    ensures forall r :: r in Kept(ranges) ==> r in ranges
  {
    if |ranges| > 0 {
      KeptMembers(ranges[..|ranges| - 1]);
      assert ranges == ranges[..|ranges| - 1] + [ranges[|ranges| - 1]];
    }
  }

  lemma {:induction false} KeptEnds(ranges: seq<Range>)
    requires Delegations(ranges)
    ensures End(Kept(ranges)) >= -1
    ensures forall k :: 0 <= k < |Kept(ranges)| ==> Kept(ranges)[k].last <= End(Kept(ranges))
  {
    if |ranges| > 0 {
      var kept := Kept(ranges[..|ranges| - 1]);
      KeptEnds(ranges[..|ranges| - 1]);
      assert kept + [] == kept;
    }
  }

  /** What is kept is stacked, and so pairwise disjoint. */
  lemma {:induction false} KeptStacked(ranges: seq<Range>)
    requires SortedRanges(ranges) && Delegations(ranges)
    ensures Stacked(Kept(ranges))
  {
    hide SortedRanges, Delegations, Stacked;
    if |ranges| == 0 {
      NoneStacked();
      assert ranges == [];
    } else {
      var rest, r := ranges[..|ranges| - 1], ranges[|ranges| - 1];
      RestDelegations(ranges);
      KeptStacked(rest);
      KeptEnds(rest);
      KeptBefore(ranges);
      StackedPush(Kept(rest), r);
    }
  }

  lemma NoneStacked()
    ensures Stacked(Kept([]))
  {
  }

  lemma RestDelegations(ranges: seq<Range>)
    requires |ranges| > 0 && SortedRanges(ranges) && Delegations(ranges)
    ensures SortedRanges(ranges[..|ranges| - 1]) && Delegations(ranges[..|ranges| - 1])
  {
    assert forall i :: 0 <= i < |ranges| - 1 ==> ranges[..|ranges| - 1][i] == ranges[i];
  }

  lemma StackedPush(kept: seq<Range>, r: Range)
    requires Stacked(kept) && forall k :: 0 <= k < |kept| ==> kept[k].last <= End(kept)
    requires forall x :: x in kept ==> x.first <= r.first
    ensures r.first > End(kept) ==> Stacked(kept + [r])
  {
    assert forall k :: 0 <= k < |kept| ==> kept[k] in kept;
  }

  /** Ranges kept before the last one do not start behind it. */
  lemma KeptBefore(ranges: seq<Range>)
    requires |ranges| > 0 && SortedRanges(ranges)
    ensures var rest, r := ranges[..|ranges| - 1], ranges[|ranges| - 1];
      forall x :: x in Kept(rest) ==>
        x.first < r.first || (x.first == r.first && x.last <= r.last)
  {
    var rest, r := ranges[..|ranges| - 1], ranges[|ranges| - 1];
    KeptMembers(rest);
    hide Kept;
    forall x | x in Kept(rest)
      ensures x.first < r.first || (x.first == r.first && x.last <= r.last)
    {
      var i :| 0 <= i < |rest| && rest[i] == x;
      assert ranges[i] == x && ranges[|rest|] == r;
    }
  }

  /** A range that is dropped is empty or overlaps a kept one. */
  lemma {:induction false} DroppedOverlaps(ranges: seq<Range>, r: Range)
    requires SortedRanges(ranges) && Delegations(ranges) && r in ranges && r.first <= r.last && r !in Kept(ranges)
    ensures exists k :: 0 <= k < |Kept(ranges)| && In(r.first, Kept(ranges)[k])
  {
    var rest, x := ranges[..|ranges| - 1], ranges[|ranges| - 1];
    var kept := Kept(rest);
    assert r in rest || r == x;
    assert r !in kept && forall k :: 0 <= k < |kept| ==> Kept(ranges)[k] == kept[k];
    if r in rest {
      DroppedOverlaps(rest, r);
    } else {
      assert Kept(ranges) == kept && r.first <= End(kept) && |kept| > 0;
      KeptBefore(ranges);
      hide Kept, SortedRanges;
      var k := |kept| - 1;
      assert kept[k] in kept;
      assert In(r.first, kept[k]);
    }
  }

  /** The lookup in a loaded table: the last range that starts at or before the address, if it reaches it. */
  method Lookup(t: Table, n: int, ghost kept: seq<Range>) returns (cc: Option<Country>)
    requires Stacked(kept) && t == TableOf(kept)
    ensures cc == Scan(kept, n)
  {
    var above := BisectRight(t.first, n);
    var i: int := above as int - 1;
    forall k: int | 0 <= k < |kept| && k != i
      ensures !In(n, kept[k])
    {
      assert t.first[k] == kept[k].first;
      if k < i {
        assert t.first[i] <= n;
      }
    }
    ScanOnly(kept, n, i);
    if i >= 0 {
      assert t.first[i] == kept[i].first && t.last[i] == kept[i].last && t.cc[i] == kept[i].cc;
    }
    hide Lower, Scan;
    if i >= 0 && n <= t.last[i] {
      cc := Some(Lower(t.cc[i]));
    } else {
      cc := None;
    }
  }

  /** At most the range at index k contains the address. */
  lemma {:induction false} ScanOnly(ranges: seq<Range>, n: int, k: int)
    requires forall i :: 0 <= i < |ranges| && i != k ==> !In(n, ranges[i])
    ensures Scan(ranges, n) == if 0 <= k < |ranges| && In(n, ranges[k]) then Some(Lower(ranges[k].cc)) else None
  {
    hide Lower;
    if |ranges| > 0 && !In(n, ranges[0]) {
      ScanOnly(ranges[1..], n, k - 1);
    }
  }

  ghost predicate DisjointRanges(ranges: seq<Range>) {
    forall i, j, n :: 0 <= i < j < |ranges| && In(n, ranges[i]) ==> !In(n, ranges[j])
  }

  /** Scanning finds the code of whichever range contains the address. */
  lemma {:induction false} ScanFinds(ranges: seq<Range>, n: int)
    ensures Scan(ranges, n).None? <==> forall r :: r in ranges ==> !In(n, r)
    ensures Scan(ranges, n).Some? ==> exists r :: r in ranges && In(n, r) && Scan(ranges, n) == Some(Lower(r.cc))
  {
    hide Lower;
    if |ranges| > 0 && !In(n, ranges[0]) {
      ScanFinds(ranges[1..], n);
      assert ranges == [ranges[0]] + ranges[1..];
    }
  }

  /**
   * For disjoint input, in whatever order it arrives before sorting, the kept ranges give every
   * address the country that a scan of all input ranges gives it.
   */
  lemma KeptScansLikeInput(input: seq<Range>, ranges: seq<Range>, n: int)
    requires multiset(ranges) == multiset(input) && SortedRanges(ranges) && Delegations(ranges)
    requires DisjointRanges(input)
    ensures Scan(Kept(ranges), n) == Scan(input, n)
  {
    KeptMembers(ranges);
    ScanFinds(Kept(ranges), n);
    ScanFinds(input, n);
    assert forall r :: r in ranges <==> r in multiset(ranges);
    assert forall r :: r in input <==> r in multiset(input);
    hide Kept, Scan, Lower;
    if Scan(input, n).Some? {
      var r :| r in input && In(n, r) && Scan(input, n) == Some(Lower(r.cc));
      if r !in Kept(ranges) {
        DroppedOverlaps(ranges, r);
        var k :| 0 <= k < |Kept(ranges)| && In(r.first, Kept(ranges)[k]);
        SameRange(input, r, Kept(ranges)[k], r.first);
      }
      var x :| x in Kept(ranges) && In(n, x) && Scan(Kept(ranges), n) == Some(Lower(x.cc));
      SameRange(input, r, x, n);
    }
  }

  lemma SameRange(input: seq<Range>, a: Range, b: Range, n: int)
    requires DisjointRanges(input) && a in input && b in input && In(n, a) && In(n, b)
    ensures a == b
  {
    var i :| 0 <= i < |input| && input[i] == a;
    var j :| 0 <= j < |input| && input[j] == b;
    assert In(n, input[i]) && In(n, input[j]);
  }

  /** Compile, load, look up: the country of an address by the input ranges. */
  method CompileAndLookup(input: seq<Range>, ranges: seq<Range>, w: nat, n: int) returns (cc: Option<Option<Country>>)
    requires multiset(ranges) == multiset(input) && SortedRanges(ranges) && Delegations(ranges)
    ensures cc.None? <==> exists k :: 0 <= k < |Kept(ranges)| && !Packable(Kept(ranges)[k], w)
    ensures cc.Some? ==> cc.value == Scan(Kept(ranges), n)
    ensures cc.Some? && DisjointRanges(input) ==> cc.value == Scan(input, n)
  {
    hide Kept, Scan, DecodeAll, Encode, DisjointRanges, SortedRanges, Delegations, Stacked, TableOf, Packable;
    var raw := WriteTable(ranges, w);
    if raw.None? {
      return None;
    }
    var t := LoadTable(raw.value, w);
    ghost var kept := Kept(ranges);
    DecodeEncode(kept, w);
    RecordCount(|kept|, 2 * w + 2);
    KeptStacked(ranges);
    if DisjointRanges(input) {
      KeptScansLikeInput(input, ranges, n);
    }
    var r := Lookup(t, n, kept);
    cc := Some(r);
  }

  lemma RecordCount(n: nat, size: nat)
    requires size >= 1
    ensures n * size / size == n
  {
    var q := n * size / size;
    assert 0 <= (n - q) * size < size;
    TimesSign(n - q, size);
  }

  lemma TimesSign(a: int, size: int)
    requires size >= 1
    ensures a >= 1 ==> a * size >= size
    ensures a <= -1 ==> a * size <= -size
  {
  }

  // ---- the memo --------------------------------------------------------------------------------------

  const CACHE_MAX: nat := 100000

  /** Answers remembered per address text; resolve stands for the lookup in the loaded tables. */
  class Countries {
    const resolve: string -> Option<Country>
    var cache: map<string, Option<Country>>

    ghost predicate Valid()
      reads this
    {
      |cache| <= CACHE_MAX && forall ip :: ip in cache ==> cache[ip] == resolve(ip)
    }

    constructor (resolve: string -> Option<Country>)
      ensures Valid() && this.resolve == resolve
    {
      this.resolve, cache := resolve, map[];
    }

    /** The memo is bounded and never changes an answer. */
    method Country(ip: string) returns (cc: Option<Country>)
      requires Valid()
      modifies this
      ensures Valid() && cc == resolve(ip) && |cache| <= 100000
    {
      if ip in cache {
        return cache[ip];
      }
      cc := resolve(ip);
      if |cache| < CACHE_MAX {
        cache := cache[ip := cc];
      }
    }
  }
}
