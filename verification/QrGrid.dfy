/**
 * Geometry of a QR symbol: the reserved modules, the zigzag over the other ones
 * (section 7.7.3 of ISO/IEC 18004:2015) and how many modules it offers.
 */
module QrGrid {
  import opened QrStream

  datatype Cell = Cell(x: int, y: int)

  function Size(v: nat): nat {
    4 * v + 17
  }

  predicate OnGrid(v: nat, c: Cell) {
    0 <= c.x < Size(v) && 0 <= c.y < Size(v)
  }

  // ---- reserved modules -------------------------------------------------------------

  function Abs(a: int): nat {
    if a < 0 then -a else a
  }

  /** Distance in king moves. */
  function Ring(cx: int, cy: int, c: Cell): nat {
    var dx, dy := Abs(c.x - cx), Abs(c.y - cy);
    if dx < dy then dy else dx
  }

  /** The three corners that hold finder, separator and format modules. */
  predicate InCorner(v: nat, c: Cell) {
    (c.x <= 8 && c.y <= 8) || (c.x >= Size(v) - 8 && c.y <= 8) || (c.x <= 8 && c.y >= Size(v) - 8)
  }

  predicate InTiming(c: Cell) {
    c.x == 6 || c.y == 6
  }

  /** The middle alignment coordinate of versions 7 to 10. */
  function Mid(v: nat): int {
    Size(v) - 7 - 2 * (v + 1)
  }

  predicate InOuterAlignment(v: nat, c: Cell) {
    v >= 2 && Ring(Size(v) - 7, Size(v) - 7, c) <= 2
  }

  predicate InMidAlignment(v: nat, c: Cell) {
    v >= 7 && (Ring(6, Mid(v), c) <= 2 || Ring(Mid(v), 6, c) <= 2 || Ring(Mid(v), Mid(v), c) <= 2 ||
               Ring(Mid(v), Size(v) - 7, c) <= 2 || Ring(Size(v) - 7, Mid(v), c) <= 2)
  }

  predicate InAlignment(v: nat, c: Cell) {
    InOuterAlignment(v, c) || InMidAlignment(v, c)
  }

  predicate InVersion(v: nat, c: Cell) {
    v >= 7 && ((Size(v) - 11 <= c.x < Size(v) - 8 && 0 <= c.y < 6) ||
               (Size(v) - 11 <= c.y < Size(v) - 8 && 0 <= c.x < 6))
  }

  /** The modules that carry no data. */
  predicate Reserved(v: nat, c: Cell) {
    InCorner(v, c) || InTiming(c) || InAlignment(v, c) || InVersion(v, c)
  }

  // ---- the zigzag -------------------------------------------------------------------

  /** Number of column pairs; column 6 belongs to none. */
  function Pairs(v: nat): nat {
    2 * v + 8
  }

  /** The right column of pair p, counted from the right edge. */
  function Right(v: nat, p: nat): int {
    var r := Size(v) - 1 - 2 * p;
    if r > 6 then r else r - 1
  }

  predicate Upward(right: int) {
    (right + 1) % 4 < 2
  }

  /** The module visited at step k of column pair p. */
  function Visit(v: nat, p: nat, k: nat): Cell {
    var right, vert := Right(v, p), k / 2;
    Cell(right - k % 2, if Upward(right) then Size(v) - 1 - vert else vert)
  }

  function PairOf(v: nat, c: Cell): int {
    if c.x > 6 then (Size(v) - 1 - c.x) / 2 else (Size(v) - 2 - c.x) / 2
  }

  function StepOf(v: nat, c: Cell): int {
    var right := Right(v, if PairOf(v, c) < 0 then 0 else PairOf(v, c));
    2 * (if Upward(right) then Size(v) - 1 - c.y else c.y) + (right - c.x)
  }

  /** Every module outside column 6 is visited, at its own pair and step and at no other. */
  lemma ZigzagIsBijection(v: nat, c: Cell, p: nat, k: nat)
    requires OnGrid(v, c) && c.x != 6 && p < Pairs(v) && k < 2 * Size(v)
    ensures 0 <= PairOf(v, c) < Pairs(v) && 0 <= StepOf(v, c) < 2 * Size(v)
    ensures Visit(v, p, k) == c <==> p == PairOf(v, c) && k == StepOf(v, c)
  {
    var right := Right(v, PairOf(v, c));
    assert right == c.x || right == c.x + 1;
  }

  lemma VisitOnGrid(v: nat, p: nat, k: nat)
    requires p < Pairs(v) && k < 2 * Size(v)
    ensures OnGrid(v, Visit(v, p, k)) && Visit(v, p, k).x != 6
  {
  }

  lemma QuarterRest(a: int, q: int, r: int)
    requires a == 4 * q + r && 0 <= r < 4
    ensures a % 4 == r
  {
  }

  lemma UpwardAlternates(v: nat, p: nat)
    requires p < Pairs(v)
    ensures Upward(Right(v, p)) <==> p % 2 == 0
  {
    var a, h := Right(v, p) + 1, p / 2;
    var r := if Size(v) - 1 - 2 * p > 6 then 1 else 0;
    if p % 2 == 0 {
      QuarterRest(a, v + 4 - h, r);
    } else {
      QuarterRest(a, v + 3 - h, r + 2);
    }
  }

  /** The zigzag starts in the bottom right corner, goes up in the first pair, down in the next, and so on. */
  lemma ZigzagSteps(v: nat, p: nat, k: nat)
    requires p < Pairs(v) && k < 2 * Size(v)
    ensures Visit(v, 0, 0) == Cell(4 * v + 16, 4 * v + 16)
    ensures Visit(v, p, k).y == if p % 2 == 0 then 4 * v + 16 - k / 2 else k / 2
    ensures k % 2 == 0 ==> Visit(v, p, k + 1) == Cell(Visit(v, p, k).x - 1, Visit(v, p, k).y)
    ensures k % 2 == 1 && k < 2 * Size(v) - 1 ==>
      Visit(v, p, k + 1) == Cell(Visit(v, p, k).x + 1, Visit(v, p, k).y + if p % 2 == 0 then -1 else 1)
  {
    hide Upward;
    UpwardAlternates(v, 0);
    UpwardAlternates(v, p);
  }

  /** A pair starts in the row where the one before it ended, one column further left; column 6 is left out. */
  lemma ZigzagTurns(v: nat, p: nat)
    requires 0 < p < Pairs(v)
    ensures var last, next := Visit(v, p - 1, 2 * Size(v) - 1), Visit(v, p, 0);
      next == Cell(if last.x == 7 then 5 else last.x - 1, last.y)
  {
    hide Upward;
    UpwardAlternates(v, p - 1);
    UpwardAlternates(v, p);
  }

  /** Number of data modules before step k of pair p. */
  function Rank(v: nat, p: nat, k: nat): nat
    decreases p, k
  {
    if k > 0 then Rank(v, p, k - 1) + (if Reserved(v, Visit(v, p, k - 1)) then 0 else 1)
    else if p > 0 then Rank(v, p - 1, 2 * Size(v))
    else 0
  }

  /** The place of a data module in the stream. */
  function RankOf(v: nat, c: Cell): nat
    requires PairOf(v, c) >= 0 && StepOf(v, c) >= 0
  {
    Rank(v, PairOf(v, c), StepOf(v, c))
  }

  /** Is module c visited before step k of pair p? */
  predicate Before(v: nat, c: Cell, p: nat, k: nat) {
    PairOf(v, c) < p || (PairOf(v, c) == p && StepOf(v, c) < k)
  }

  // ---- masks (section 7.8 of ISO/IEC 18004:2015) ------------------------------------------

  /** Does mask pattern k invert module c? */
  predicate Mask(k: nat, c: Cell) {
    var x, y := c.x, c.y;
    if k == 0 then (x + y) % 2 == 0
    else if k == 1 then y % 2 == 0
    else if k == 2 then x % 3 == 0
    else if k == 3 then (x + y) % 3 == 0
    else if k == 4 then (y / 2 + x / 3) % 2 == 0
    else if k == 5 then (x * y) % 2 + (x * y) % 3 == 0
    else if k == 6 then ((x * y) % 2 + (x * y) % 3) % 2 == 0
    else ((x + y) % 2 + (x * y) % 3) % 2 == 0
  }

  // ---- reading along the zigzag -------------------------------------------------------

  type Grid = seq<seq<bool>>

  predicate IsSquare(g: Grid, n: nat) {
    |g| == n && forall y :: 0 <= y < n ==> |g[y]| == n
  }

  /** The data bits seen before step k of pair p, through a mask. */
  function Read(g: Grid, v: nat, mask: nat, p: nat, k: nat): seq<bool>
    requires IsSquare(g, Size(v)) && p <= Pairs(v) && k <= 2 * Size(v) && (p < Pairs(v) || k == 0)
    decreases p, k
  {
    if k > 0 then
      var c := Visit(v, p, k - 1);
      VisitOnGrid(v, p, k - 1);
      Read(g, v, mask, p, k - 1) + if Reserved(v, c) then [] else [g[c.y][c.x] != Mask(mask, c)]
    else if p > 0 then Read(g, v, mask, p - 1, 2 * Size(v))
    else []
  }

  /** Does every data module of g hold its bit of the stream, seen through the mask? */
  ghost predicate Holds(g: Grid, v: nat, mask: nat, bits: seq<bool>)
    requires IsSquare(g, Size(v))
  {
    forall x, y | 0 <= x < Size(v) && 0 <= y < Size(v) && !Reserved(v, Cell(x, y)) ::
      PairOf(v, Cell(x, y)) >= 0 && StepOf(v, Cell(x, y)) >= 0 && RankOf(v, Cell(x, y)) < |bits| &&
      (g[y][x] != Mask(mask, Cell(x, y))) == bits[RankOf(v, Cell(x, y))]
  }

  /** A grid that holds the stream is read back in order. */
  lemma {:induction false} ReadBack(g: Grid, v: nat, mask: nat, bits: seq<bool>, p: nat, k: nat)
    requires IsSquare(g, Size(v)) && p <= Pairs(v) && k <= 2 * Size(v) && (p < Pairs(v) || k == 0)
    requires Holds(g, v, mask, bits) && Rank(v, p, k) <= |bits|
    ensures Read(g, v, mask, p, k) == bits[..Rank(v, p, k)]
    decreases p, k
  {
    hide Reserved, Visit, PairOf, StepOf, Mask;
    if k > 0 {
      ReadBack(g, v, mask, bits, p, k - 1);
      var c := Visit(v, p, k - 1);
      VisitOnGrid(v, p, k - 1);
      ZigzagIsBijection(v, c, p, k - 1);
      assert c == Cell(c.x, c.y);
    } else if p > 0 {
      ReadBack(g, v, mask, bits, p - 1, 2 * Size(v));
    }
  }

  // ---- how many data modules there are --------------------------------------------------

  predicate IsData(v: nat, c: Cell) {
    OnGrid(v, c) && !Reserved(v, c)
  }

  lemma DataOutsideColumn6(v: nat, c: Cell)
    requires IsData(v, c)
    ensures c.x != 6
  {
  }

  lemma BeforeStep(v: nat, c: Cell, p: nat, k: nat)
    requires OnGrid(v, c) && c.x != 6 && p < Pairs(v) && 0 < k <= 2 * Size(v)
    ensures Before(v, c, p, k) <==> Before(v, c, p, k - 1) || c == Visit(v, p, k - 1)
    ensures c == Visit(v, p, k - 1) ==> !Before(v, c, p, k - 1)
  {
    hide Visit, PairOf, StepOf;
    ZigzagIsBijection(v, c, p, k - 1);
  }

  lemma BeforePair(v: nat, c: Cell, p: nat)
    requires OnGrid(v, c) && c.x != 6
    ensures !Before(v, c, 0, 0)
    ensures p > 0 ==> (Before(v, c, p, 0) <==> Before(v, c, p - 1, 2 * Size(v)))
    ensures Before(v, c, Pairs(v), 0)
  {
    hide Visit, PairOf, StepOf;
    ZigzagIsBijection(v, c, 0, 0);
  }

  ghost function Visited(v: nat, p: nat, k: nat): set<Cell> {
    set c | c in AllCells(Size(v)) && !Reserved(v, c) && Before(v, c, p, k)
  }

  ghost function AllCells(n: nat): set<Cell> {
    Rect(0, n, 0, n)
  }

  /** The modules with x0 <= x < x1 and y0 <= y < y1. */
  ghost function Rect(x0: int, x1: int, y0: int, y1: int): set<Cell> {
    set x, y | x0 <= x < x1 && y0 <= y < y1 :: Cell(x, y)
  }

  lemma InAllCells(v: nat)
    ensures forall c :: c in AllCells(Size(v)) <==> OnGrid(v, c)
  {
    forall c | OnGrid(v, c)
      ensures c in AllCells(Size(v))
    {
      assert c == Cell(c.x, c.y);
    }
  }

  lemma VisitedStep(v: nat, p: nat, k: nat)
    requires p < Pairs(v) && 0 < k <= 2 * Size(v)
    ensures |Visited(v, p, k)| == |Visited(v, p, k - 1)| + if Reserved(v, Visit(v, p, k - 1)) then 0 else 1
  {
    var c := Visit(v, p, k - 1);
    VisitOnGrid(v, p, k - 1);
    InAllCells(v);
    forall d | IsData(v, d)
      ensures Before(v, d, p, k) <==> Before(v, d, p, k - 1) || d == c
      ensures d == c ==> !Before(v, d, p, k - 1)
    {
      DataOutsideColumn6(v, d);
      BeforeStep(v, d, p, k);
    }
    hide Reserved, Visit, Before, AllCells;
    if Reserved(v, c) {
      assert Visited(v, p, k) == Visited(v, p, k - 1);
    } else {
      assert Visited(v, p, k) == Visited(v, p, k - 1) + {c};
    }
  }

  lemma {:induction false} RankCounts(v: nat, p: nat, k: nat)
    requires p <= Pairs(v) && k <= 2 * Size(v) && (p < Pairs(v) || k == 0)
    ensures |Visited(v, p, k)| == Rank(v, p, k)
    decreases p, k
  {
    hide Reserved, Before, Visit;
    if k > 0 {
      RankCounts(v, p, k - 1);
      VisitedStep(v, p, k);
    } else {
      InAllCells(v);
      forall d | IsData(v, d)
        ensures !Before(v, d, 0, 0)
        ensures p > 0 ==> (Before(v, d, p, 0) <==> Before(v, d, p - 1, 2 * Size(v)))
      {
        DataOutsideColumn6(v, d);
        BeforePair(v, d, p);
      }
      hide AllCells;
      if p > 0 {
        RankCounts(v, p - 1, 2 * Size(v));
        assert Visited(v, p, 0) == Visited(v, p - 1, 2 * Size(v));
      } else {
        assert Visited(v, 0, 0) == {};
      }
    }
  }

  // ---- capacity ---------------------------------------------------------------------

  lemma {:induction false} ColumnSize(x: int, y0: int, y1: int)
    requires y0 <= y1
    ensures |Rect(x, x + 1, y0, y1)| == y1 - y0
    decreases y1 - y0
  {
    if y0 == y1 {
      assert Rect(x, x + 1, y0, y1) == {};
    } else {
      ColumnSize(x, y0, y1 - 1);
      assert Rect(x, x + 1, y0, y1) == Rect(x, x + 1, y0, y1 - 1) + {Cell(x, y1 - 1)};
    }
  }

  lemma {:induction false} RectSize(x0: int, x1: int, y0: int, y1: int)
    requires x0 <= x1 && y0 <= y1
    ensures |Rect(x0, x1, y0, y1)| == (x1 - x0) * (y1 - y0)
    decreases x1 - x0
  {
    if x0 == x1 {
      assert Rect(x0, x1, y0, y1) == {};
    } else {
      RectSize(x0, x1 - 1, y0, y1);
      ColumnSize(x1 - 1, y0, y1);
      assert Rect(x0, x1, y0, y1) == Rect(x0, x1 - 1, y0, y1) + Rect(x1 - 1, x1, y0, y1);
      assert (x1 - x0) * (y1 - y0) == (x1 - 1 - x0) * (y1 - y0) + (y1 - y0);
    }
  }

  /** A rectangle (x0, x1, y0, y1). */
  type Box = (int, int, int, int)

  ghost predicate Apart(a: Box, b: Box) {
    a.1 <= b.0 || b.1 <= a.0 || a.3 <= b.2 || b.3 <= a.2
  }

  ghost predicate Inside(c: Cell, b: Box) {
    b.0 <= c.x < b.1 && b.2 <= c.y < b.3
  }

  ghost function Cover(boxes: seq<Box>): set<Cell> {
    if |boxes| == 0 then {}
    else Cover(boxes[1..]) + Rect(boxes[0].0, boxes[0].1, boxes[0].2, boxes[0].3)
  }

  ghost function Area(boxes: seq<Box>): int {
    if |boxes| == 0 then 0
    else Area(boxes[1..]) + (boxes[0].1 - boxes[0].0) * (boxes[0].3 - boxes[0].2)
  }

  ghost predicate Tiles(boxes: seq<Box>) {
    (forall i :: 0 <= i < |boxes| ==> boxes[i].0 <= boxes[i].1 && boxes[i].2 <= boxes[i].3) &&
    (forall i, j :: 0 <= i < j < |boxes| ==> Apart(boxes[i], boxes[j]))
  }

  lemma {:induction false} InCover(boxes: seq<Box>, c: Cell)
    ensures c in Cover(boxes) <==> exists i :: 0 <= i < |boxes| && Inside(c, boxes[i])
  {
    if |boxes| > 0 {
      InCover(boxes[1..], c);
      assert Inside(c, boxes[0]) ==> Cell(c.x, c.y) in Rect(boxes[0].0, boxes[0].1, boxes[0].2, boxes[0].3);
      if i :| 0 <= i < |boxes| && Inside(c, boxes[i]) && i > 0 {
        assert Inside(c, boxes[1..][i - 1]);
      }
      if i :| 0 <= i < |boxes| - 1 && Inside(c, boxes[1..][i]) {
        assert Inside(c, boxes[i + 1]);
      }
    }
  }

  lemma {:induction false} CoverSize(boxes: seq<Box>)
    requires Tiles(boxes)
    ensures |Cover(boxes)| == Area(boxes)
  {
    if |boxes| > 0 {
      var b := boxes[0];
      CoverSize(boxes[1..]);
      RectSize(b.0, b.1, b.2, b.3);
      forall c | c in Cover(boxes[1..])
        ensures c !in Rect(b.0, b.1, b.2, b.3)
      {
        InCover(boxes[1..], c);
        var i :| 0 <= i < |boxes| - 1 && Inside(c, boxes[1..][i]);
        assert Apart(boxes[0], boxes[i + 1]);
      }
    }
  }

  ghost function CornerBoxes(n: int): seq<Box> {
    [(0, 9, 0, 9), (n - 8, n, 0, 9), (0, 9, n - 8, n), (6, 7, 9, n - 8), (9, n - 8, 6, 7)]
  }

  ghost function OuterBoxes(n: int): seq<Box> {
    [(n - 9, n - 4, n - 9, n - 4)]
  }

  ghost function MidBoxes(n: int, mid: int): seq<Box> {
    [(4, 6, mid - 2, mid + 3), (7, 9, mid - 2, mid + 3), (mid - 2, mid + 3, 4, 6), (mid - 2, mid + 3, 7, 9),
     (mid - 2, mid + 3, mid - 2, mid + 3), (mid - 2, mid + 3, n - 9, n - 4), (n - 9, n - 4, mid - 2, mid + 3),
     (n - 11, n - 8, 0, 6), (0, 6, n - 11, n - 8)]
  }

  ghost function ReservedBoxes(v: nat): seq<Box> {
    if v >= 7 then CornerBoxes(Size(v)) + OuterBoxes(Size(v)) + MidBoxes(Size(v), Mid(v))
    else if v >= 2 then CornerBoxes(Size(v)) + OuterBoxes(Size(v))
    else CornerBoxes(Size(v))
  }

  lemma ReservedTiles(v: nat)
    requires IsVersion(v)
    ensures Tiles(ReservedBoxes(v))
  {
    var n := Size(v);
    CornerTiles(n);
    if v >= 7 {
      var mid := Mid(v);
      MidTiles(n, mid);
      CornerOuterApart(n);
      CornerMidApart(n, mid);
      OuterMidApart(n, mid);
      hide CornerBoxes, OuterBoxes, MidBoxes, Tiles;
      TilesConcat(CornerBoxes(n), OuterBoxes(n));
      assert forall a, b | a in CornerBoxes(n) + OuterBoxes(n) && b in MidBoxes(n, mid) :: Apart(a, b);
      TilesConcat(CornerBoxes(n) + OuterBoxes(n), MidBoxes(n, mid));
    } else if v >= 2 {
      CornerOuterApart(n);
      hide CornerBoxes, OuterBoxes, MidBoxes, Tiles;
      TilesConcat(CornerBoxes(n), OuterBoxes(n));
    }
  }

  lemma TilesConcat(a: seq<Box>, b: seq<Box>)
    requires Tiles(a) && Tiles(b) && forall x, y | x in a && y in b :: Apart(x, y)
    ensures Tiles(a + b)
  {
    hide Apart;
  }

  lemma CornerTiles(n: int)
    requires n >= 21
    ensures Tiles(CornerBoxes(n)) && Tiles(OuterBoxes(n))
  {
  }

  lemma MidTiles(n: int, mid: int)
    requires 16 <= mid <= n - 16
    ensures Tiles(MidBoxes(n, mid))
  {
  }

  lemma CornerOuterApart(n: int)
    requires n >= 25
    ensures forall a, b | a in CornerBoxes(n) && b in OuterBoxes(n) :: Apart(a, b)
  {
  }

  lemma CornerMidApart(n: int, mid: int)
    requires 16 <= mid <= n - 16
    ensures forall a, b | a in CornerBoxes(n) && b in MidBoxes(n, mid) :: Apart(a, b)
  {
  }

  lemma OuterMidApart(n: int, mid: int)
    requires 16 <= mid <= n - 16
    ensures forall a, b | a in OuterBoxes(n) && b in MidBoxes(n, mid) :: Apart(a, b)
  {
  }

  lemma CoverConcat(a: seq<Box>, b: seq<Box>, c: Cell)
    ensures c in Cover(a + b) <==> c in Cover(a) || c in Cover(b)
  {
    InCover(a, c);
    InCover(b, c);
    InCover(a + b, c);
    if j :| 0 <= j < |b| && Inside(c, b[j]) {
      assert Inside(c, (a + b)[|a| + j]);
    }
    if i :| 0 <= i < |a| && Inside(c, a[i]) {
      assert Inside(c, (a + b)[i]);
    }
    if k :| 0 <= k < |a + b| && Inside(c, (a + b)[k]) {
      assert if k < |a| then Inside(c, a[k]) else Inside(c, b[k - |a|]);
    }
  }

  lemma CornerCover(v: nat, c: Cell)
    requires OnGrid(v, c) && v >= 1
    ensures c in Cover(CornerBoxes(Size(v))) <==> InCorner(v, c) || InTiming(c)
  {
    var b := CornerBoxes(Size(v));
    InCover(b, c);
    assert Inside(c, b[0]) || Inside(c, b[1]) || Inside(c, b[2]) || Inside(c, b[3]) || Inside(c, b[4]) <==>
      InCorner(v, c) || InTiming(c);
  }

  lemma OuterCover(v: nat, c: Cell)
    requires v >= 2
    ensures c in Cover(OuterBoxes(Size(v))) <==> InOuterAlignment(v, c)
  {
    var b := OuterBoxes(Size(v));
    InCover(b, c);
    assert Inside(c, b[0]) <==> InOuterAlignment(v, c);
  }

  lemma MidCover(v: nat, c: Cell)
    requires OnGrid(v, c) && v >= 7
    ensures c in Cover(MidBoxes(Size(v), Mid(v))) ==> InMidAlignment(v, c) || InVersion(v, c)
    ensures InMidAlignment(v, c) || InVersion(v, c) ==> c in Cover(MidBoxes(Size(v), Mid(v))) || InTiming(c)
  {
    hide Cover, MidBoxes, InMidAlignment, InVersion;
    InCover(MidBoxes(Size(v), Mid(v)), c);
    InMidBoxes(v, c);
    if (InMidAlignment(v, c) || InVersion(v, c)) && !InTiming(c) {
      MidBoxesHold(v, c);
    }
  }

  lemma InMidBoxes(v: nat, c: Cell)
    requires OnGrid(v, c) && v >= 7
    ensures forall b :: b in MidBoxes(Size(v), Mid(v)) && Inside(c, b) ==> InMidAlignment(v, c) || InVersion(v, c)
  {
  }

  lemma MidBoxesHold(v: nat, c: Cell)
    requires OnGrid(v, c) && v >= 7 && (InMidAlignment(v, c) || InVersion(v, c)) && !InTiming(c)
    ensures exists i :: 0 <= i < |MidBoxes(Size(v), Mid(v))| && Inside(c, MidBoxes(Size(v), Mid(v))[i])
  {
    var b := MidBoxes(Size(v), Mid(v));
    if InVersion(v, c) {
      assert Inside(c, b[7]) || Inside(c, b[8]);
    } else {
      assert Inside(c, b[0]) || Inside(c, b[1]) || Inside(c, b[2]) || Inside(c, b[3]) ||
             Inside(c, b[4]) || Inside(c, b[5]) || Inside(c, b[6]);
    }
  }

  lemma ReservedIsCover(v: nat, c: Cell)
    requires IsVersion(v) && OnGrid(v, c)
    ensures Reserved(v, c) <==> c in Cover(ReservedBoxes(v))
  {
    var n := Size(v);
    CornerCover(v, c);
    if v >= 2 {
      OuterCover(v, c);
      CoverConcat(CornerBoxes(n), OuterBoxes(n), c);
    }
    if v >= 7 {
      MidCover(v, c);
      hide CornerBoxes, OuterBoxes, MidBoxes, Cover, InCorner, InTiming, InOuterAlignment, InMidAlignment, InVersion;
      CoverConcat(CornerBoxes(n) + OuterBoxes(n), MidBoxes(n, Mid(v)), c);
    }
  }

  lemma ReservedArea(v: nat)
    requires IsVersion(v)
    ensures Area(ReservedBoxes(v)) ==
      225 + 2 * (Size(v) - 17) + (if v >= 2 then 25 else 0) + if v >= 7 then 151 else 0
  {
    var n := Size(v);
    AreaOfCorner(n);
    if v >= 2 {
      AreaConcat(CornerBoxes(n), OuterBoxes(n));
    }
    if v >= 7 {
      AreaOfMid(n, Mid(v));
      hide CornerBoxes, OuterBoxes, MidBoxes;
      AreaConcat(CornerBoxes(n) + OuterBoxes(n), MidBoxes(n, Mid(v)));
    }
  }

  ghost function BoxArea(b: Box): int {
    (b.1 - b.0) * (b.3 - b.2)
  }

  lemma AreaPush(b: Box, rest: seq<Box>)
    ensures Area([b] + rest) == BoxArea(b) + Area(rest)
  {
    assert ([b] + rest)[1..] == rest;
  }

  lemma {:induction false} AreaConcat(a: seq<Box>, b: seq<Box>)
    ensures Area(a + b) == Area(a) + Area(b)
  {
    if |a| == 0 {
      assert a + b == b;
    } else {
      AreaConcat(a[1..], b);
      assert (a + b)[1..] == a[1..] + b;
    }
  }

  lemma AreaOfCorner(n: int)
    ensures Area(CornerBoxes(n)) == 225 + 2 * (n - 17)
    ensures Area(OuterBoxes(n)) == 25
  {
    var b := CornerBoxes(n);
    AreaPush(b[4], []);
    AreaPush(b[3], [b[4]]);
    AreaPush(b[2], [b[3], b[4]]);
    AreaPush(b[1], [b[2], b[3], b[4]]);
    AreaPush(b[0], [b[1], b[2], b[3], b[4]]);
    assert b == [b[0]] + [b[1], b[2], b[3], b[4]];
    AreaPush(OuterBoxes(n)[0], []);
  }

  lemma AreaOfMid(n: int, mid: int)
    ensures Area(MidBoxes(n, mid)) == 151
  {
    var b := MidBoxes(n, mid);
    AreaThree(b[0], b[1], b[2]);
    AreaThree(b[3], b[4], b[5]);
    AreaThree(b[6], b[7], b[8]);
    AreaConcat(b[..3], b[3..6]);
    AreaConcat(b[..6], b[6..]);
    assert b[..3] == [b[0], b[1], b[2]] && b[3..6] == [b[3], b[4], b[5]] && b[6..] == [b[6], b[7], b[8]];
    assert b[..6] == b[..3] + b[3..6] && b == b[..6] + b[6..];
    hide Area;
  }

  lemma AreaThree(a: Box, b: Box, c: Box)
    ensures Area([a, b, c]) == BoxArea(a) + BoxArea(b) + BoxArea(c)
  {
    AreaPush(c, []);
    AreaPush(b, [c]);
    AreaPush(a, [b, c]);
  }

  /** Number of data modules of a version. */
  function DataModules(v: nat): nat {
    Rank(v, Pairs(v), 0)
  }

  /** The zigzag visits exactly the modules outside the reserved boxes. */
  lemma VisitedIsRest(v: nat)
    requires IsVersion(v)
    ensures Cover(ReservedBoxes(v)) <= AllCells(Size(v))
    ensures Visited(v, Pairs(v), 0) == AllCells(Size(v)) - Cover(ReservedBoxes(v))
  {
    var boxes := ReservedBoxes(v);
    InAllCells(v);
    hide Reserved, ReservedBoxes, Before, AllCells, Cover;
    forall c | OnGrid(v, c)
      ensures c in Visited(v, Pairs(v), 0) <==> c !in Cover(boxes)
    {
      ReservedIsCover(v, c);
      if !Reserved(v, c) {
        DataOutsideColumn6(v, c);
        BeforePair(v, c, 0);
      }
    }
    forall c | c in Cover(boxes)
      ensures OnGrid(v, c)
    {
      CoverOnGrid(v, c);
    }
  }

  lemma RestSize<T>(all: set<T>, part: set<T>)
    requires part <= all
    ensures |all - part| == |all| - |part|
  {
    assert all == (all - part) + part;
  }

  lemma SpareBits(v: nat)
    requires IsVersion(v)
    ensures 0 <= Size(v) * Size(v) - (225 + 2 * (Size(v) - 17) + (if v >= 2 then 25 else 0) + if v >= 7 then 151 else 0)
      - 8 * SpecOf(v).total <= 7
  {
  }

  /** The modules outside the reserved ones hold all codewords, and at most 7 bits are left over. */
  lemma Capacity(v: nat)
    requires IsVersion(v)
    ensures 8 * SpecOf(v).total <= DataModules(v) <= 8 * SpecOf(v).total + 7
  {
    hide Reserved, ReservedBoxes, Area, Before, Cover, Rank, Rect, Visited, Tiles, SpecOf;
    VisitedIsRest(v);
    ReservedTiles(v);
    ReservedArea(v);
    CoverSize(ReservedBoxes(v));
    RankCounts(v, Pairs(v), 0);
    RectSize(0, Size(v), 0, Size(v));
    RestSize(AllCells(Size(v)), Cover(ReservedBoxes(v)));
    SpareBits(v);
  }

  lemma CoverOnGrid(v: nat, c: Cell)
    requires IsVersion(v) && c in Cover(ReservedBoxes(v))
    ensures OnGrid(v, c)
  {
    InCover(ReservedBoxes(v), c);
  }
}
