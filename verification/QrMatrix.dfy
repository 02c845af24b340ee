/**
 * Drawing a QR symbol: function patterns, reserved areas, data placement, mask
 * trials and format bits, and the reader that takes a finished matrix back to
 * the bytes it encodes.
 */
module QrMatrix {
  import opened Wrappers
  import opened GF256
  import opened QrStream
  import opened QrBlocks
  import opened QrGrid

  // ---- what the function modules look like ------------------------------------------------

  predicate InFinder(v: nat, c: Cell) {
    Ring(3, 3, c) <= 4 || Ring(Size(v) - 4, 3, c) <= 4 || Ring(3, Size(v) - 4, c) <= 4
  }

  /** Concentric squares around a finder centre. */
  predicate FinderDark(ring: nat) {
    ring != 2 && ring != 4
  }

  predicate AlignmentDark(ring: nat) {
    ring != 1
  }

  predicate TimingDark(c: Cell) {
    if c.x == 6 then c.y % 2 == 0 else c.x % 2 == 0
  }

  /** The alignment coordinates of a version. */
  function AlignPos(v: nat): seq<int> {
    if v == 1 then [] else if v < 7 then [6, Size(v) - 7] else [6, Mid(v), Size(v) - 7]
  }

  /** The three alignment centres that would fall on a finder pattern. */
  predicate IsCorner(n: nat, cx: int, cy: int) {
    (cx == 6 && cy == 6) || (cx == 6 && cy == n - 7) || (cx == n - 7 && cy == 6)
  }

  predicate InFormat(v: nat, c: Cell) {
    (c.x == 8 && ((c.y <= 8 && c.y != 6) || c.y >= Size(v) - 8)) ||
    (c.y == 8 && ((c.x <= 8 && c.x != 6) || c.x >= Size(v) - 8))
  }

  predicate Dims(m: array2<bool>, fn: array2<bool>, n: nat) {
    m != fn && m.Length0 == n && m.Length1 == n && fn.Length0 == n && fn.Length1 == n
  }

  /** One finder pattern with its separator, clipped to the symbol. */
  method Finder(m: array2<bool>, fn: array2<bool>, n: nat, cx: int, cy: int)
    requires Dims(m, fn, n)
    modifies m, fn
    ensures forall x, y | 0 <= x < n && 0 <= y < n ::
      if Ring(cx, cy, Cell(x, y)) <= 4 then fn[y, x] && m[y, x] == FinderDark(Ring(cx, cy, Cell(x, y)))
      else fn[y, x] == old(fn[y, x]) && m[y, x] == old(m[y, x])
  {
    for dy := -4 to 5
      invariant forall x, y | 0 <= x < n && 0 <= y < n ::
        if Ring(cx, cy, Cell(x, y)) <= 4 && y < cy + dy then
          fn[y, x] && m[y, x] == FinderDark(Ring(cx, cy, Cell(x, y)))
        else fn[y, x] == old(fn[y, x]) && m[y, x] == old(m[y, x])
    {
      for dx := -4 to 5
        invariant forall x, y | 0 <= x < n && 0 <= y < n ::
          if Ring(cx, cy, Cell(x, y)) <= 4 && (y < cy + dy || (y == cy + dy && x < cx + dx)) then
            fn[y, x] && m[y, x] == FinderDark(Ring(cx, cy, Cell(x, y)))
          else fn[y, x] == old(fn[y, x]) && m[y, x] == old(m[y, x])
      {
        var x, y := cx + dx, cy + dy;
        if x < 0 || y < 0 || x >= n || y >= n {
          continue;
        }
        var d := if Abs(dx) < Abs(dy) then Abs(dy) else Abs(dx);
        assert d == Ring(cx, cy, Cell(x, y));
        m[y, x], fn[y, x] := d != 2 && d != 4, true;
      }
    }
  }

  /** One alignment pattern; it lies inside the symbol. */
  method Alignment(m: array2<bool>, fn: array2<bool>, n: nat, cx: int, cy: int)
    requires Dims(m, fn, n)
    requires 2 <= cx < n - 2 && 2 <= cy < n - 2
    modifies m, fn
    ensures forall x, y | 0 <= x < n && 0 <= y < n ::
      if Ring(cx, cy, Cell(x, y)) <= 2 then fn[y, x] && m[y, x] == AlignmentDark(Ring(cx, cy, Cell(x, y)))
      else fn[y, x] == old(fn[y, x]) && m[y, x] == old(m[y, x])
  {
    for dy := -2 to 3
      invariant forall x, y | 0 <= x < n && 0 <= y < n ::
        if Ring(cx, cy, Cell(x, y)) <= 2 && y < cy + dy then
          fn[y, x] && m[y, x] == AlignmentDark(Ring(cx, cy, Cell(x, y)))
        else fn[y, x] == old(fn[y, x]) && m[y, x] == old(m[y, x])
    {
      for dx := -2 to 3
        invariant forall x, y | 0 <= x < n && 0 <= y < n ::
          if Ring(cx, cy, Cell(x, y)) <= 2 && (y < cy + dy || (y == cy + dy && x < cx + dx)) then
            fn[y, x] && m[y, x] == AlignmentDark(Ring(cx, cy, Cell(x, y)))
          else fn[y, x] == old(fn[y, x]) && m[y, x] == old(m[y, x])
      {
        hide Ring;
        var d := if Abs(dx) < Abs(dy) then Abs(dy) else Abs(dx);
        NextOfSquare(cx, cy, dx, dy);
        m[cy + dy, cx + dx], fn[cy + dy, cx + dx] := d != 1, true;
      }
    }
  }

  /** The modules of a square around a centre, row by row. */
  lemma NextOfSquare(cx: int, cy: int, dx: int, dy: int)
    requires -2 <= dx <= 2 && -2 <= dy <= 2
    ensures Ring(cx, cy, Cell(cx + dx, cy + dy)) == (if Abs(dx) < Abs(dy) then Abs(dy) else Abs(dx)) <= 2
  {
  }

  method Timing(m: array2<bool>, fn: array2<bool>, n: nat)
    requires Dims(m, fn, n) && n >= 21
    modifies m, fn
    ensures forall x, y | 0 <= x < n && 0 <= y < n ::
      if (x == 6 && 8 <= y < n - 8) || (y == 6 && 8 <= x < n - 8) then fn[y, x] && m[y, x] == TimingDark(Cell(x, y))
      else fn[y, x] == old(fn[y, x]) && m[y, x] == old(m[y, x])
  {
    for i := 8 to n - 8
      invariant forall x, y | 0 <= x < n && 0 <= y < n ::
        if (x == 6 && 8 <= y < i) || (y == 6 && 8 <= x < i) then fn[y, x] && m[y, x] == TimingDark(Cell(x, y))
        else fn[y, x] == old(fn[y, x]) && m[y, x] == old(m[y, x])
    {
      m[i, 6], fn[i, 6] := i % 2 == 0, true;
      m[6, i], fn[6, i] := i % 2 == 0, true;
    }
  }

  /** The alignment coordinates, as the encoder derives them from the step. */
  method AlignmentPositions(ver: nat) returns (align: seq<int>)
    requires IsVersion(ver)
    ensures align == AlignPos(ver)
  {
    align := [];
    if ver > 1 {
      var n := ver / 7 + 2;
      var step := (ver * 4 + 4 + (n * 2 - 3)) / (n * 2 - 2) * 2;
      align := [6];
      var p := Size(ver) - 7;
      while |align| < n
        invariant 1 <= |align| <= n
        invariant |align| == 1 ==> align == [6] && p == Size(ver) - 7
        invariant |align| == 2 ==> align == [6, Size(ver) - 7] && p == Size(ver) - 7 - step
        invariant |align| == 3 ==> align == [6, Size(ver) - 7 - step, Size(ver) - 7]
      {
        align := align[..1] + [p] + align[1..];
        p := p - step;
      }
    }
  }

  /** Index of the alignment coordinate within two modules of a, or -1. */
  function Near(align: seq<int>, a: int): int {
    if |align| > 0 && Abs(a - align[0]) <= 2 then 0
    else if |align| > 1 && Abs(a - align[1]) <= 2 then 1
    else if |align| > 2 && Abs(a - align[2]) <= 2 then 2
    else -1
  }

  /** Is c covered by an alignment pattern whose centre comes before row i, column j of the table? */
  predicate Aligned(v: nat, c: Cell, i: int, j: int) {
    var a := AlignPos(v);
    var i', j' := Near(a, c.y), Near(a, c.x);
    0 <= i' < |a| && 0 <= j' < |a| && !IsCorner(Size(v), a[j'], a[i']) && (i' < i || (i' == i && j' < j))
  }

  function AlignRing(v: nat, c: Cell): nat {
    var a := AlignPos(v);
    var i, j := Near(a, c.y), Near(a, c.x);
    if 0 <= i < |a| && 0 <= j < |a| then Ring(a[j], a[i], c) else 0
  }

  lemma AlignedSquare(v: nat, c: Cell, i: nat, j: nat)
    requires IsVersion(v) && i < |AlignPos(v)| && j < |AlignPos(v)|
    ensures Near(AlignPos(v), c.y) == i && Near(AlignPos(v), c.x) == j <==>
            Ring(AlignPos(v)[j], AlignPos(v)[i], c) <= 2
  {
  }

  lemma AlignedAll(v: nat, c: Cell)
    requires IsVersion(v)
    ensures Aligned(v, c, |AlignPos(v)|, 0) <==> InAlignment(v, c)
  {
    if v >= 7 {
      if Near(AlignPos(v), c.y) == 0 {
        AlignedTop(v, c);
      } else {
        AlignedBelow(v, c);
      }
      hide Aligned, InAlignment;
    }
  }

  lemma AlignedTop(v: nat, c: Cell)
    requires IsVersion(v) && v >= 7 && Near(AlignPos(v), c.y) == 0
    ensures Aligned(v, c, 3, 0) <==> InAlignment(v, c)
  {
  }

  lemma AlignedBelow(v: nat, c: Cell)
    requires IsVersion(v) && v >= 7 && Near(AlignPos(v), c.y) != 0
    ensures Aligned(v, c, 3, 0) <==> InAlignment(v, c)
  {
  }

  method AlignmentPatterns(m: array2<bool>, fn: array2<bool>, ver: nat)
    requires IsVersion(ver) && Dims(m, fn, Size(ver))
    modifies m, fn
    ensures forall x, y | 0 <= x < Size(ver) && 0 <= y < Size(ver) ::
      if InAlignment(ver, Cell(x, y)) then fn[y, x] && m[y, x] == AlignmentDark(AlignRing(ver, Cell(x, y)))
      else fn[y, x] == old(fn[y, x]) && m[y, x] == old(m[y, x])
  {
    var n := Size(ver);
    var align := AlignmentPositions(ver);
    for i := 0 to |align|
      invariant forall x, y | 0 <= x < n && 0 <= y < n ::
        if Aligned(ver, Cell(x, y), i, 0) then fn[y, x] && m[y, x] == AlignmentDark(AlignRing(ver, Cell(x, y)))
        else fn[y, x] == old(fn[y, x]) && m[y, x] == old(m[y, x])
    {
      for j := 0 to |align|
        invariant forall x, y | 0 <= x < n && 0 <= y < n ::
          if Aligned(ver, Cell(x, y), i, j) then fn[y, x] && m[y, x] == AlignmentDark(AlignRing(ver, Cell(x, y)))
          else fn[y, x] == old(fn[y, x]) && m[y, x] == old(m[y, x])
      {
        if IsCorner(n, align[j], align[i]) {
          continue;
        }
        Alignment(m, fn, n, align[j], align[i]);
        forall x, y | 0 <= x < n && 0 <= y < n
          ensures Near(align, y) == i && Near(align, x) == j <==> Ring(align[j], align[i], Cell(x, y)) <= 2
        {
          AlignedSquare(ver, Cell(x, y), i, j);
        }
      }
    }
    forall x, y | 0 <= x < n && 0 <= y < n
      ensures Aligned(ver, Cell(x, y), |align|, 0) <==> InAlignment(ver, Cell(x, y))
    {
      AlignedAll(ver, Cell(x, y));
    }
  }

  /** Keeps the format and version areas free of data. */
  method ReserveAreas(m: array2<bool>, fn: array2<bool>, ver: nat)
    requires IsVersion(ver) && Dims(m, fn, Size(ver))
    modifies m, fn
    ensures forall x, y | 0 <= x < Size(ver) && 0 <= y < Size(ver) ::
      if InFormat(ver, Cell(x, y)) || InVersion(ver, Cell(x, y)) then fn[y, x] && !m[y, x]
      else fn[y, x] == old(fn[y, x]) && m[y, x] == old(m[y, x])
  {
    hide InFormat, InVersion;
    ReserveFormat(m, fn, ver);
    ReserveVersion(m, fn, ver);
  }

  /** The two loops for the format areas. */
  method ReserveFormat(m: array2<bool>, fn: array2<bool>, ver: nat)
    requires IsVersion(ver) && Dims(m, fn, Size(ver))
    modifies m, fn
    ensures forall x, y | 0 <= x < Size(ver) && 0 <= y < Size(ver) ::
      if InFormat(ver, Cell(x, y)) then fn[y, x] && !m[y, x]
      else fn[y, x] == old(fn[y, x]) && m[y, x] == old(m[y, x])
  {
    var n := Size(ver);
    for i := 0 to 9
      invariant forall x, y | 0 <= x < n && 0 <= y < n ::
        if (y == 8 && x < i && x != 6) || (x == 8 && y < i && y != 6) then fn[y, x] && !m[y, x]
        else fn[y, x] == old(fn[y, x]) && m[y, x] == old(m[y, x])
    {
      if i != 6 {
        m[8, i], fn[8, i] := false, true;
        m[i, 8], fn[i, 8] := false, true;
      }
    }
    for i := 0 to 8
      invariant forall x, y | 0 <= x < n && 0 <= y < n ::
        if (y == 8 && ((x <= 8 && x != 6) || x >= n - i)) || (x == 8 && ((y <= 8 && y != 6) || y >= n - i)) then
          fn[y, x] && !m[y, x]
        else fn[y, x] == old(fn[y, x]) && m[y, x] == old(m[y, x])
    {
      m[8, n - 1 - i], fn[8, n - 1 - i] := false, true;
      m[n - 1 - i, 8], fn[n - 1 - i, 8] := false, true;
    }
  }

  /** The loop for the version areas. */
  method ReserveVersion(m: array2<bool>, fn: array2<bool>, ver: nat)
    requires IsVersion(ver) && Dims(m, fn, Size(ver))
    modifies m, fn
    ensures forall x, y | 0 <= x < Size(ver) && 0 <= y < Size(ver) ::
      if InVersion(ver, Cell(x, y)) then fn[y, x] && !m[y, x]
      else fn[y, x] == old(fn[y, x]) && m[y, x] == old(m[y, x])
  {
    var n := Size(ver);
    if ver >= 7 {
      for i := 0 to 18
        invariant forall x, y | 0 <= x < n && 0 <= y < n ::
          if VersionCell(n, i, x, y) || VersionCell(n, i, y, x) then fn[y, x] && !m[y, x]
          else fn[y, x] == old(fn[y, x]) && m[y, x] == old(m[y, x])
      {
        hide VersionCell;
        NextVersionCell(n, i);
        var a, b := n - 11 + i % 3, i / 3;
        m[b, a], fn[b, a] := false, true;
        m[a, b], fn[a, b] := false, true;
      }
    }
  }

  lemma NextVersionCell(n: nat, i: nat)
    requires i < 18
    ensures forall a, b ::
      VersionCell(n, i + 1, a, b) <==> VersionCell(n, i, a, b) || (a == n - 11 + i % 3 && b == i / 3)
  {
  }

  /** Is (a, b) one of the first i modules of a version block? */
  predicate VersionCell(n: nat, i: nat, a: int, b: int) {
    n - 11 <= a < n - 8 && 0 <= b && 3 * b + (a - (n - 11)) < i
  }

  /** The colour of a reserved module right after the function patterns are drawn. */
  function FunctionModule(v: nat, c: Cell): bool {
    if InFormat(v, c) || InVersion(v, c) then false
    else if InAlignment(v, c) then AlignmentDark(AlignRing(v, c))
    else if Ring(3, 3, c) <= 4 then FinderDark(Ring(3, 3, c))
    else if Ring(Size(v) - 4, 3, c) <= 4 then FinderDark(Ring(Size(v) - 4, 3, c))
    else if Ring(3, Size(v) - 4, c) <= 4 then FinderDark(Ring(3, Size(v) - 4, c))
    else InTiming(c) && TimingDark(c)
  }

  lemma ReservedParts(v: nat, c: Cell)
    requires IsVersion(v) && OnGrid(v, c)
    ensures Reserved(v, c) <==>
      InFinder(v, c) || InTiming(c) || InAlignment(v, c) || InFormat(v, c) || InVersion(v, c)
    ensures InAlignment(v, c) ==> !InFinder(v, c)
    ensures InTiming(c) ==>
      InFinder(v, c) || (c.x == 6 && 8 <= c.y < Size(v) - 8) || (c.y == 6 && 8 <= c.x < Size(v) - 8)
  {
  }

  method DrawFunctionPatterns(m: array2<bool>, fn: array2<bool>, ver: nat)
    requires IsVersion(ver) && Dims(m, fn, Size(ver))
    requires forall x, y | 0 <= x < Size(ver) && 0 <= y < Size(ver) :: !m[y, x] && !fn[y, x]
    modifies m, fn
    ensures forall x, y | 0 <= x < Size(ver) && 0 <= y < Size(ver) ::
      fn[y, x] == Reserved(ver, Cell(x, y)) && m[y, x] == FunctionModule(ver, Cell(x, y))
  {
    var n := Size(ver);
    Finder(m, fn, n, 3, 3);
    Finder(m, fn, n, n - 4, 3);
    Finder(m, fn, n, 3, n - 4);
    Timing(m, fn, n);
    AlignmentPatterns(m, fn, ver);
    ReserveAreas(m, fn, ver);
    forall x, y | 0 <= x < n && 0 <= y < n
      ensures fn[y, x] == Reserved(ver, Cell(x, y)) && m[y, x] == FunctionModule(ver, Cell(x, y))
    {
      ReservedParts(ver, Cell(x, y));
    }
  }

  // ---- data ------------------------------------------------------------------------------

  /** Bit i of the codeword stream; modules past its end stay light. */
  function StreamBit(out: seq<Byte>, i: nat): bool {
    i < 8 * |out| && Flatten(out)[i]
  }

  lemma BitOfCodeword(out: seq<Byte>, i: nat)
    requires i < 8 * |out|
    ensures out[i / 8][i % 8] == Flatten(out)[i]
  {
    FlattenAt(out, i / 8);
    assert Flatten(out)[i] == Flatten(out)[8 * (i / 8)..8 * (i / 8) + 8][i % 8];
  }

  /** Data modules visited before step k of pair p hold their bit; everything else is as drawn. */
  ghost predicate PlacedUpTo(m: array2<bool>, v: nat, out: seq<Byte>, p: nat, k: nat)
    requires m.Length0 == m.Length1 == Size(v)
    reads m
  {
    forall x, y | 0 <= x < Size(v) && 0 <= y < Size(v) ::
      m[y, x] ==
        if Reserved(v, Cell(x, y)) then FunctionModule(v, Cell(x, y))
        else PairOf(v, Cell(x, y)) >= 0 && StepOf(v, Cell(x, y)) >= 0 && Before(v, Cell(x, y), p, k) &&
             StreamBit(out, RankOf(v, Cell(x, y)))
  }

  /** How many bits of the stream are used up: the counter of the encoder. */
  function BitsPlaced(v: nat, out: seq<Byte>, p: nat, k: nat): nat {
    if Rank(v, p, k) < 8 * |out| then Rank(v, p, k) else 8 * |out|
  }

  ghost predicate MarksReserved(fn: array2<bool>, v: nat)
    requires fn.Length0 == fn.Length1 == Size(v)
    reads fn
  {
    forall x, y | 0 <= x < Size(v) && 0 <= y < Size(v) :: fn[y, x] == Reserved(v, Cell(x, y))
  }

  lemma StepAdvances(v: nat, c: Cell, p: nat, k: nat)
    requires IsData(v, c) && p < Pairs(v) && k < 2 * Size(v)
    ensures PairOf(v, c) >= 0 && StepOf(v, c) >= 0
    ensures Before(v, c, p, k + 1) <==> Before(v, c, p, k) || c == Visit(v, p, k)
    ensures c == Visit(v, p, k) ==> !Before(v, c, p, k) && RankOf(v, c) == Rank(v, p, k)
  {
    DataOutsideColumn6(v, c);
    hide Reserved, Visit, PairOf, StepOf;
    ZigzagIsBijection(v, c, p, k);
    BeforeStep(v, c, p, k + 1);
  }

  /** One visit of the zigzag. */
  method PlaceStep(m: array2<bool>, fn: array2<bool>, ver: nat, out: seq<Byte>, ghost p: nat, ghost k: nat,
                   c: Cell, bi: nat)
    returns (bi': nat)
    requires IsVersion(ver) && Dims(m, fn, Size(ver)) && p < Pairs(ver) && k < 2 * Size(ver)
    requires c == Visit(ver, p, k) && OnGrid(ver, c)
    requires MarksReserved(fn, ver)
    requires PlacedUpTo(m, ver, out, p, k) && bi == BitsPlaced(ver, out, p, k)
    modifies m
    ensures PlacedUpTo(m, ver, out, p, k + 1) && bi' == BitsPlaced(ver, out, p, k + 1)
  {
    bi' := bi;
    if !fn[c.y, c.x] && bi < |out| * 8 {
      BitOfCodeword(out, bi);
      m[c.y, c.x] := out[bi / 8][bi % 8];
      bi' := bi + 1;
    }
    assert c == Cell(c.x, c.y);
    hide Reserved, Visit, PairOf, StepOf, FunctionModule, Before, RankOf;
    forall x, y | 0 <= x < Size(ver) && 0 <= y < Size(ver) && !Reserved(ver, Cell(x, y))
      ensures PairOf(ver, Cell(x, y)) >= 0 && StepOf(ver, Cell(x, y)) >= 0
      ensures m[y, x] == (Before(ver, Cell(x, y), p, k + 1) && StreamBit(out, RankOf(ver, Cell(x, y))))
    {
      StepAdvances(ver, Cell(x, y), p, k);
    }
  }

  lemma NextPair(v: nat, m: array2<bool>, out: seq<Byte>, p: nat)
    requires m.Length0 == m.Length1 == Size(v) && 0 < p <= Pairs(v)
    requires PlacedUpTo(m, v, out, p - 1, 2 * Size(v))
    ensures PlacedUpTo(m, v, out, p, 0)
  {
    forall x, y | 0 <= x < Size(v) && 0 <= y < Size(v) && !Reserved(v, Cell(x, y))
      ensures Before(v, Cell(x, y), p, 0) <==> Before(v, Cell(x, y), p - 1, 2 * Size(v))
    {
      DataOutsideColumn6(v, Cell(x, y));
      BeforePair(v, Cell(x, y), p);
    }
  }

  /** One pair of columns, upward or downward. */
  method PlacePair(m: array2<bool>, fn: array2<bool>, ver: nat, out: seq<Byte>, ghost p: nat, right: int, bi: nat)
    returns (bi': nat)
    requires IsVersion(ver) && Dims(m, fn, Size(ver)) && p < Pairs(ver) && right == Right(ver, p)
    requires MarksReserved(fn, ver)
    requires PlacedUpTo(m, ver, out, p, 0) && bi == BitsPlaced(ver, out, p, 0)
    modifies m
    ensures PlacedUpTo(m, ver, out, p, 2 * Size(ver)) && bi' == BitsPlaced(ver, out, p, 2 * Size(ver))
  {
    var n := Size(ver);
    bi' := bi;
    hide PlacedUpTo, Reserved, Rank, MarksReserved, BitsPlaced;
    for vert := 0 to n
      invariant MarksReserved(fn, ver)
      invariant PlacedUpTo(m, ver, out, p, 2 * vert) && bi' == BitsPlaced(ver, out, p, 2 * vert)
    {
      for j := 0 to 2
        invariant MarksReserved(fn, ver)
        invariant PlacedUpTo(m, ver, out, p, 2 * vert + j) && bi' == BitsPlaced(ver, out, p, 2 * vert + j)
      {
        var x := right - j;
        var up := (right + 1) % 4 < 2;
        var y := if up then n - 1 - vert else vert;
        bi' := PlaceStep(m, fn, ver, out, p, 2 * vert + j, Cell(x, y), bi');
      }
    }
  }

  /** The zigzag over all column pairs. */
  method PlaceData(m: array2<bool>, fn: array2<bool>, ver: nat, out: seq<Byte>)
    requires IsVersion(ver) && Dims(m, fn, Size(ver)) && MarksReserved(fn, ver)
    requires PlacedUpTo(m, ver, out, 0, 0)
    modifies m
    ensures PlacedUpTo(m, ver, out, Pairs(ver), 0)
  {
    hide PlacedUpTo, Reserved, Rank, MarksReserved, BitsPlaced;
    var n := Size(ver);
    var bi := 0;
    var right := n - 1;
    ghost var p := 0;
    PairStart(ver, out, 0);
    while right >= 1
      invariant 0 <= p <= Pairs(ver)
      invariant right == if n - 1 - 2 * p >= 6 then n - 1 - 2 * p else n - 2 - 2 * p
      invariant MarksReserved(fn, ver)
      invariant PlacedUpTo(m, ver, out, p, 0) && bi == BitsPlaced(ver, out, p, 0)
      decreases right
    {
      if right == 6 {
        right := 5;
      }
      bi := PlacePair(m, fn, ver, out, p, right, bi);
      right := right - 2;
      p := p + 1;
      NextPair(ver, m, out, p);
      PairStart(ver, out, p);
    }
  }

  lemma PairStart(v: nat, out: seq<Byte>, p: nat)
    ensures BitsPlaced(v, out, p, 0) == if p > 0 then BitsPlaced(v, out, p - 1, 2 * Size(v)) else 0
  {
  }

  // ---- masking and format ----------------------------------------------------------------

  /** Inverts the data modules selected by mask k. */
  method ApplyMask(m: array2<bool>, fn: array2<bool>, ver: nat, k: nat)
    requires Dims(m, fn, Size(ver)) && MarksReserved(fn, ver)
    modifies m
    ensures forall x, y | 0 <= x < Size(ver) && 0 <= y < Size(ver) ::
      m[y, x] == (old(m[y, x]) != (!Reserved(ver, Cell(x, y)) && Mask(k, Cell(x, y))))
  {
    var n := Size(ver);
    hide Reserved, Mask;
    for y0 := 0 to n
      invariant forall x, y | 0 <= x < n && 0 <= y < n ::
        m[y, x] == (old(m[y, x]) != (y < y0 && !Reserved(ver, Cell(x, y)) && Mask(k, Cell(x, y))))
    {
      for x0 := 0 to n
        invariant forall x, y | 0 <= x < n && 0 <= y < n ::
          m[y, x] == (old(m[y, x]) !=
            ((y < y0 || (y == y0 && x < x0)) && !Reserved(ver, Cell(x, y)) && Mask(k, Cell(x, y))))
      {
        if !fn[y0, x0] && Mask(k, Cell(x0, y0)) {
          m[y0, x0] := !m[y0, x0];
        }
      }
    }
  }

  /** Exclusive or of two lists of bits. */
  function XorList(a: seq<bool>, b: seq<bool>): (r: seq<bool>)
    requires |a| == |b|
    ensures |r| == |a|
  {
    seq(|a|, i requires 0 <= i < |a| => a[i] != b[i])
  }

  /** The division register of the format and version codes after n shifts. */
  function ShiftOut(register: seq<bool>, poly: seq<bool>, n: nat): (r: seq<bool>)
    requires |register| == |poly| >= 1
    ensures |r| == |register|
  {
    if n == 0 then register
    else
      var r := ShiftOut(register, poly, n - 1);
      XorList(r[1..] + [false], if r[0] then poly else seq(|poly|, i => false))
  }

  /** The low ten bits of 0x537. */
  const FORMAT_POLY: seq<bool> := [false, true, false, false, true, true, false, true, true, true]
  /** 0x5412 in fifteen bits. */
  const FORMAT_XOR: seq<bool> :=
    [true, false, true, false, true, false, false, false, false, false, true, false, false, true, false]
  /** The low twelve bits of 0x1F25. */
  const VERSION_POLY: seq<bool> :=
    [true, true, true, true, false, false, true, false, false, true, false, true]

  /** The fifteen format bits of level M and mask k, most significant first. */
  function FormatBits(k: nat): (s: seq<bool>)
    ensures |s| == 15
  {
    XorList(NatBits(k, 5) + ShiftOut(NatBits(k, 10), FORMAT_POLY, 10), FORMAT_XOR)
  }

  /** The eighteen version bits, most significant first. */
  function VersionBits(v: nat): (s: seq<bool>)
    ensures |s| == 18
  {
    NatBits(v, 6) + ShiftOut(NatBits(v, 12), VERSION_POLY, 12)
  }

  /** The format bit shown by a module; each bit is shown twice. */
  function FormatIndex(v: nat, c: Cell): int {
    if c.x == 8 && c.y <= 5 then c.y
    else if c.x == 8 && c.y <= 8 then c.y - 1
    else if c.y == 8 && c.x == 7 then 8
    else if c.y == 8 && c.x <= 5 then 14 - c.x
    else if c.y == 8 && c.x > 8 then Size(v) - 1 - c.x
    else c.y - (Size(v) - 15)
  }

  /** The colour of a format module; the one above the lower left finder is always dark. */
  function FormatModule(v: nat, k: nat, c: Cell): bool {
    if c.x == 8 && c.y == Size(v) - 8 then true
    else
      var i := FormatIndex(v, c);
      0 <= i < 15 && FormatBits(k)[14 - i]
  }

  function VersionModule(v: nat, c: Cell): bool {
    var i := if c.y < 6 then 3 * c.y + (c.x - (Size(v) - 11)) else 3 * c.x + (c.y - (Size(v) - 11));
    0 <= i < 18 && VersionBits(v)[17 - i]
  }

  /** Colours a module that is already reserved. */
  method Set(m: array2<bool>, fn: array2<bool>, ver: nat, x: int, y: int, dark: bool)
    requires Dims(m, fn, Size(ver)) && OnGrid(ver, Cell(x, y)) && Reserved(ver, Cell(x, y))
    requires MarksReserved(fn, ver)
    modifies m, fn
    ensures MarksReserved(fn, ver)
    ensures forall x', y' | 0 <= x' < Size(ver) && 0 <= y' < Size(ver) ::
      m[y', x'] == if x' == x && y' == y then dark else old(m[y', x'])
  {
    hide Reserved;
    m[y, x], fn[y, x] := dark, true;
  }

  lemma FormatReserved(v: nat, c: Cell)
    requires InFormat(v, c) || InVersion(v, c)
    ensures Reserved(v, c)
  {
  }

  /** The first copy of the format bits, around the upper left finder. */
  method DrawFormatCorner(m: array2<bool>, fn: array2<bool>, ver: nat, k: nat)
    requires IsVersion(ver) && Dims(m, fn, Size(ver)) && MarksReserved(fn, ver)
    modifies m, fn
    ensures MarksReserved(fn, ver)
    ensures forall x, y | 0 <= x < Size(ver) && 0 <= y < Size(ver) ::
      m[y, x] ==
        if InFormat(ver, Cell(x, y)) && x <= 8 && y <= 8 then FormatModule(ver, k, Cell(x, y)) else old(m[y, x])
  {
    var n := Size(ver);
    var b := FormatBits(k);
    hide Reserved, FormatBits, MarksReserved;
    for i := 0 to 6
      invariant MarksReserved(fn, ver)
      invariant forall x, y | 0 <= x < n && 0 <= y < n ::
        m[y, x] == if x == 8 && y < i then FormatModule(ver, k, Cell(x, y)) else old(m[y, x])
    {
      FormatReserved(ver, Cell(8, i));
      Set(m, fn, ver, 8, i, b[14 - i]);
    }
    FormatReserved(ver, Cell(8, 7));
    FormatReserved(ver, Cell(8, 8));
    FormatReserved(ver, Cell(7, 8));
    Set(m, fn, ver, 8, 7, b[14 - 6]);
    Set(m, fn, ver, 8, 8, b[14 - 7]);
    Set(m, fn, ver, 7, 8, b[14 - 8]);
    for i := 9 to 15
      invariant MarksReserved(fn, ver)
      invariant forall x, y | 0 <= x < n && 0 <= y < n ::
        m[y, x] ==
          if (x == 8 && y <= 8 && y != 6) || (y == 8 && (x == 7 || 14 - i < x <= 5)) then
            FormatModule(ver, k, Cell(x, y))
          else old(m[y, x])
    {
      FormatReserved(ver, Cell(14 - i, 8));
      Set(m, fn, ver, 14 - i, 8, b[14 - i]);
    }
  }

  /** The second copy of the format bits and the dark module, beside the other two finders. */
  method DrawFormatEdges(m: array2<bool>, fn: array2<bool>, ver: nat, k: nat)
    requires IsVersion(ver) && Dims(m, fn, Size(ver)) && MarksReserved(fn, ver)
    modifies m, fn
    ensures MarksReserved(fn, ver)
    ensures forall x, y | 0 <= x < Size(ver) && 0 <= y < Size(ver) ::
      m[y, x] ==
        if InFormat(ver, Cell(x, y)) && (x > 8 || y > 8) then FormatModule(ver, k, Cell(x, y)) else old(m[y, x])
  {
    var n := Size(ver);
    var b := FormatBits(k);
    hide Reserved, FormatBits, MarksReserved;
    for i := 0 to 8
      invariant MarksReserved(fn, ver)
      invariant forall x, y | 0 <= x < n && 0 <= y < n ::
        m[y, x] == if y == 8 && x >= n - i then FormatModule(ver, k, Cell(x, y)) else old(m[y, x])
    {
      FormatReserved(ver, Cell(n - 1 - i, 8));
      Set(m, fn, ver, n - 1 - i, 8, b[14 - i]);
    }
    for i := 8 to 15
      invariant MarksReserved(fn, ver)
      invariant forall x, y | 0 <= x < n && 0 <= y < n ::
        m[y, x] ==
          if (y == 8 && x >= n - 8) || (x == 8 && n - 7 <= y < n - 15 + i) then FormatModule(ver, k, Cell(x, y))
          else old(m[y, x])
    {
      FormatReserved(ver, Cell(8, n - 15 + i));
      Set(m, fn, ver, 8, n - 15 + i, b[14 - i]);
    }
    FormatReserved(ver, Cell(8, n - 8));
    Set(m, fn, ver, 8, n - 8, true);
  }

  /** Both copies of the format bits. */
  method DrawFormat(m: array2<bool>, fn: array2<bool>, ver: nat, k: nat)
    requires IsVersion(ver) && Dims(m, fn, Size(ver)) && MarksReserved(fn, ver)
    modifies m, fn
    ensures MarksReserved(fn, ver)
    ensures forall x, y | 0 <= x < Size(ver) && 0 <= y < Size(ver) ::
      m[y, x] == if InFormat(ver, Cell(x, y)) then FormatModule(ver, k, Cell(x, y)) else old(m[y, x])
  {
    hide MarksReserved, FormatModule;
    DrawFormatCorner(m, fn, ver, k);
    DrawFormatEdges(m, fn, ver, k);
  }

  /** Both modules that show version bit 17 - i. */
  lemma VersionShown(ver: nat, i: nat, a: int, b: int)
    requires 7 <= ver && i < 18 && a == Size(ver) - 11 + i % 3 && b == i / 3
    ensures VersionModule(ver, Cell(a, b)) == VersionBits(ver)[17 - i] == VersionModule(ver, Cell(b, a))
  {
    hide VersionBits;
  }

  method DrawVersion(m: array2<bool>, fn: array2<bool>, ver: nat)
    requires IsVersion(ver) && Dims(m, fn, Size(ver)) && MarksReserved(fn, ver)
    modifies m, fn
    ensures MarksReserved(fn, ver)
    ensures forall x, y | 0 <= x < Size(ver) && 0 <= y < Size(ver) ::
      m[y, x] == if InVersion(ver, Cell(x, y)) then VersionModule(ver, Cell(x, y)) else old(m[y, x])
  {
    var n := Size(ver);
    if ver >= 7 {
      var vb := VersionBits(ver);
      hide Reserved, VersionBits, MarksReserved, VersionModule;
      for i := 0 to 18
        invariant MarksReserved(fn, ver)
        invariant forall x, y | 0 <= x < n && 0 <= y < n ::
          m[y, x] ==
            if VersionCell(n, i, x, y) || VersionCell(n, i, y, x) then VersionModule(ver, Cell(x, y)) else old(m[y, x])
      {
        hide VersionCell;
        NextVersionCell(n, i);
        var a, b := n - 11 + i % 3, i / 3;
        VersionShown(ver, i, a, b);
        FormatReserved(ver, Cell(a, b));
        FormatReserved(ver, Cell(b, a));
        Set(m, fn, ver, a, b, vb[17 - i]);
        Set(m, fn, ver, b, a, vb[17 - i]);
      }
    }
  }

  // ---- the encoder --------------------------------------------------------------------------

  /** Every module of a finished symbol: data under the mask, format and version bits, patterns. */
  function FinalModule(v: nat, out: seq<Byte>, k: nat, c: Cell): bool {
    if !Reserved(v, c) then
      (PairOf(v, c) >= 0 && StepOf(v, c) >= 0 && StreamBit(out, RankOf(v, c))) != Mask(k, c)
    else if InFormat(v, c) then FormatModule(v, k, c)
    else if InVersion(v, c) then VersionModule(v, c)
    else FunctionModule(v, c)
  }

  ghost predicate Finished(m: array2<bool>, v: nat, out: seq<Byte>, k: nat)
    requires m.Length0 == m.Length1 == Size(v)
    reads m
  {
    forall x, y | 0 <= x < Size(v) && 0 <= y < Size(v) :: m[y, x] == FinalModule(v, out, k, Cell(x, y))
  }

  /** Like a finished symbol, but with no mask applied and any format bits. */
  ghost predicate Unmasked(m: array2<bool>, v: nat, out: seq<Byte>)
    requires m.Length0 == m.Length1 == Size(v)
    reads m
  {
    forall x, y | 0 <= x < Size(v) && 0 <= y < Size(v) && !InFormat(v, Cell(x, y)) ::
      m[y, x] == (FinalModule(v, out, 0, Cell(x, y)) != (!Reserved(v, Cell(x, y)) && Mask(0, Cell(x, y))))
  }

  /** Blank grids, function patterns and data. */
  method DrawSymbol(ver: nat, out: seq<Byte>) returns (m: array2<bool>, fn: array2<bool>)
    requires IsVersion(ver)
    ensures fresh(m) && fresh(fn) && Dims(m, fn, Size(ver))
    ensures MarksReserved(fn, ver) && Unmasked(m, ver, out)
  {
    var n := Size(ver);
    m := new bool[n, n]((i, j) => false);
    fn := new bool[n, n]((i, j) => false);
    DrawFunctionPatterns(m, fn, ver);
    hide FunctionModule, PairOf, StepOf, Reserved;
    forall x, y | 0 <= x < n && 0 <= y < n && !Reserved(ver, Cell(x, y))
      ensures !FunctionModule(ver, Cell(x, y)) && !Before(ver, Cell(x, y), 0, 0)
    {
      FunctionModuleReserved(ver, Cell(x, y));
      DataOutsideColumn6(ver, Cell(x, y));
      BeforePair(ver, Cell(x, y), 0);
    }
    PlaceData(m, fn, ver, out);
    forall x, y | 0 <= x < n && 0 <= y < n && !Reserved(ver, Cell(x, y))
      ensures Before(ver, Cell(x, y), Pairs(ver), 0)
    {
      DataOutsideColumn6(ver, Cell(x, y));
      BeforePair(ver, Cell(x, y), 0);
    }
    hide Before, RankOf, Mask;
    DrawVersion(m, fn, ver);
    forall x, y | 0 <= x < n && 0 <= y < n
      ensures InFormat(ver, Cell(x, y)) || InVersion(ver, Cell(x, y)) ==> Reserved(ver, Cell(x, y))
    {
      if InFormat(ver, Cell(x, y)) || InVersion(ver, Cell(x, y)) {
        FormatReserved(ver, Cell(x, y));
      }
    }
  }

  lemma FunctionModuleReserved(v: nat, c: Cell)
    requires IsVersion(v) && OnGrid(v, c)
    ensures FunctionModule(v, c) ==> Reserved(v, c)
  {
    ReservedParts(v, c);
  }

  /** One mask trial: apply, draw the format bits, apply again.  Only format modules may change. */
  method TryMask(m: array2<bool>, fn: array2<bool>, ver: nat, k: nat, ghost out: seq<Byte>)
    requires IsVersion(ver) && Dims(m, fn, Size(ver)) && MarksReserved(fn, ver) && Unmasked(m, ver, out)
    modifies m, fn
    ensures MarksReserved(fn, ver) && Unmasked(m, ver, out)
    ensures forall x, y | 0 <= x < Size(ver) && 0 <= y < Size(ver) && !InFormat(ver, Cell(x, y)) ::
      m[y, x] == old(m[y, x])
  {
    hide MarksReserved, FormatModule, FinalModule, Reserved, Mask, InFormat;
    ApplyMask(m, fn, ver, k);
    DrawFormat(m, fn, ver, k);
    ApplyMask(m, fn, ver, k);
  }

  /** The pattern with the lowest score, the first of them; scores are the eight penalties. */
  predicate IsBest(scores: seq<int>, k: nat) {
    k < |scores| && forall j :: 0 <= j < |scores| ==> scores[k] <= scores[j] && (j < k ==> scores[k] < scores[j])
  }

  method MaskAndFormat(m: array2<bool>, fn: array2<bool>, ver: nat, forceMask: Option<nat>, scores: seq<int>,
                       ghost out: seq<Byte>) returns (best: nat)
    requires IsVersion(ver) && Dims(m, fn, Size(ver)) && MarksReserved(fn, ver) && Unmasked(m, ver, out)
    requires |scores| == 8 && (forceMask.Some? ==> forceMask.value < 8)
    modifies m, fn
    ensures best < 8 && if forceMask.Some? then best == forceMask.value else IsBest(scores, best)
    ensures Finished(m, ver, out, best)
  {
    if forceMask.Some? {
      best := forceMask.value;
    } else {
      best := 0;
      var bestScore := None;
      for k := 0 to 8
        invariant MarksReserved(fn, ver) && Unmasked(m, ver, out)
        invariant bestScore == if k == 0 then None else Some(scores[best])
        invariant k == 0 || IsBest(scores[..k], best)
      {
        TryMask(m, fn, ver, k, out);
        if bestScore.None? || scores[k] < bestScore.value {
          bestScore := Some(scores[k]);
          best := k;
        }
      }
      assert scores[..8] == scores;
    }
    hide MarksReserved, FormatModule, VersionModule, FunctionModule, Reserved, Mask, InFormat, InVersion,
      PairOf, StepOf, RankOf;
    ApplyMask(m, fn, ver, best);
    DrawFormat(m, fn, ver, best);
    forall x, y | 0 <= x < Size(ver) && 0 <= y < Size(ver)
      ensures InFormat(ver, Cell(x, y)) ==> Reserved(ver, Cell(x, y))
    {
      if InFormat(ver, Cell(x, y)) {
        FormatReserved(ver, Cell(x, y));
      }
    }
  }

  // ---- reading a symbol -----------------------------------------------------------------------

  /** The mask number in the first copy of the format bits, undoing the fixed pattern. */
  function ReadMask(g: Grid): nat
    requires IsSquare(g, |g|) && |g| >= 21
  {
    (if g[8][2] then 0 else 4) + (if g[8][3] then 2 else 0) + (if g[8][4] then 0 else 1)
  }

  /** Are the two level bits those of level M? */
  predicate IsLevelM(g: Grid)
    requires IsSquare(g, |g|) && |g| >= 21
  {
    g[8][0] && !g[8][1]
  }

  /** The codewords of a symbol, read along the zigzag under the mask it names. */
  function ReadCodewords(g: Grid, v: nat): (out: seq<Byte>)
    requires IsVersion(v) && IsSquare(g, Size(v))
    ensures |out| <= SpecOf(v).total
  {
    var bits := Read(g, v, ReadMask(g), Pairs(v), 0);
    Unflatten(if |bits| < 8 * SpecOf(v).total then bits else bits[..8 * SpecOf(v).total])
  }

  /** A reader of byte-mode, level M symbols: version from the size, mask from the format bits. */
  function Decode(g: Grid): Option<seq<Byte>> {
    if |g| < 21 || |g| > 57 || |g| % 4 != 1 || !IsSquare(g, |g|) || !IsLevelM(g) then None
    else
      var v := (|g| - 17) / 4;
      var sp := SpecOf(v);
      var out := ReadCodewords(g, v);
      if |out| != sp.total then None
      else
        SpecsValid(v);
        Parse(Flatten(Deinterleave(out, sp, sp.blocks)), v)
  }

  /** The rows of a drawn matrix. */
  ghost function Rows(m: array2<bool>): (g: Grid)
    reads m
  {
    seq(m.Length0, y requires 0 <= y < m.Length0 reads m =>
      seq(m.Length1, x requires 0 <= x < m.Length1 reads m => m[y, x]))
  }

  /** g shows the codewords out under mask k. */
  ghost predicate Shows(g: Grid, v: nat, out: seq<Byte>, k: nat) {
    IsSquare(g, Size(v)) &&
    forall x, y | 0 <= x < Size(v) && 0 <= y < Size(v) :: g[y][x] == FinalModule(v, out, k, Cell(x, y))
  }

  lemma {:induction false} RankMonotone(v: nat, p: nat, k: nat)
    requires p <= Pairs(v) && k <= 2 * Size(v) && (p < Pairs(v) || k == 0)
    ensures Rank(v, p, k) <= DataModules(v)
    decreases Pairs(v) - p, 2 * Size(v) - k
  {
    hide Reserved, Visit;
    if p < Pairs(v) {
      if k < 2 * Size(v) {
        RankMonotone(v, p, k + 1);
      } else {
        RankMonotone(v, p + 1, 0);
      }
    }
  }

  lemma RankInRange(v: nat, c: Cell)
    requires IsData(v, c)
    ensures PairOf(v, c) >= 0 && StepOf(v, c) >= 0 && RankOf(v, c) < DataModules(v)
  {
    DataOutsideColumn6(v, c);
    hide Reserved, Visit, PairOf, StepOf, DataModules;
    ZigzagIsBijection(v, c, 0, 0);
    ZigzagIsBijection(v, c, PairOf(v, c), StepOf(v, c));
    RankMonotone(v, PairOf(v, c), StepOf(v, c) + 1);
  }

  /** All bits a symbol has room for: the codewords, then light modules. */
  ghost function FullStream(v: nat, out: seq<Byte>): (s: seq<bool>)
    ensures |s| == DataModules(v)
  {
    seq(DataModules(v), i requires 0 <= i < DataModules(v) => StreamBit(out, i))
  }

  lemma ShownHolds(g: Grid, v: nat, out: seq<Byte>, k: nat)
    requires Shows(g, v, out, k)
    ensures Holds(g, v, k, FullStream(v, out))
  {
    hide PairOf, StepOf, RankOf, Mask, Reserved, DataModules, StreamBit;
    forall x, y | 0 <= x < Size(v) && 0 <= y < Size(v) && !Reserved(v, Cell(x, y))
      ensures PairOf(v, Cell(x, y)) >= 0 && StepOf(v, Cell(x, y)) >= 0
      ensures RankOf(v, Cell(x, y)) < DataModules(v)
      ensures (g[y][x] != Mask(k, Cell(x, y))) == FullStream(v, out)[RankOf(v, Cell(x, y))]
    {
      RankInRange(v, Cell(x, y));
    }
  }

  /** The format modules name the mask. */
  lemma FormatReadBack(g: Grid, v: nat, out: seq<Byte>, k: nat)
    requires IsVersion(v) && k < 8 && Shows(g, v, out, k)
    ensures IsLevelM(g) && ReadMask(g) == k
  {
    FormatTop(v, k, 0);
    FormatTop(v, k, 1);
    FormatTop(v, k, 2);
    FormatTop(v, k, 3);
    FormatTop(v, k, 4);
    MaskNumber(k);
    hide NatBits, FormatModule;
    assert g[8][0] == FinalModule(v, out, k, Cell(0, 8));
    assert g[8][1] == FinalModule(v, out, k, Cell(1, 8));
    assert g[8][2] == FinalModule(v, out, k, Cell(2, 8));
    assert g[8][3] == FinalModule(v, out, k, Cell(3, 8));
    assert g[8][4] == FinalModule(v, out, k, Cell(4, 8));
  }

  /** The five leading format bits: level and mask, exclusive or 10101. */
  lemma FormatTop(v: nat, k: nat, x: nat)
    requires IsVersion(v) && x < 5
    ensures FormatModule(v, k, Cell(x, 8)) == (NatBits(k, 5)[x] != (x % 2 == 0))
  {
    hide ShiftOut, NatBits;
    assert FormatBits(k)[x] == (NatBits(k, 5)[x] != FORMAT_XOR[x]);
  }

  lemma MaskNumber(k: nat)
    requires k < 8
    ensures !NatBits(k, 5)[0] && !NatBits(k, 5)[1]
    ensures var b := NatBits(k, 5);
      k == (if b[2] then 4 else 0) + (if b[3] then 2 else 0) + if b[4] then 1 else 0
  {
    hide NatBits;
    LastBit(k, 5);
    LastBit(k / 2, 4);
    LastBit(k / 4, 3);
    LastBit(k / 8, 2);
    LastBit(k / 16, 1);
    assert k / 2 / 2 == k / 4 && k / 4 / 2 == k / 8 == 0 && k / 8 / 2 == k / 16 == 0;
  }

  lemma LastBit(k: nat, n: nat)
    requires n >= 1
    ensures NatBits(k, n) == NatBits(k / 2, n - 1) + [k % 2 == 1]
  {
  }

  lemma CodewordsReadBack(g: Grid, v: nat, out: seq<Byte>, k: nat)
    requires IsVersion(v) && k < 8 && |out| == SpecOf(v).total && Shows(g, v, out, k)
    ensures ReadCodewords(g, v) == out
  {
    hide FinalModule, Rank, Reserved, ReadMask, SpecOf;
    FormatReadBack(g, v, out, k);
    ShownHolds(g, v, out, k);
    Capacity(v);
    var full := FullStream(v, out);
    ReadBack(g, v, k, full, Pairs(v), 0);
    assert full[..DataModules(v)] == full;
    assert full[..8 * |out|] == Flatten(out);
    UnflattenFlatten(out);
  }

  /** A symbol that shows the encoded blocks of a message reads as that message. */
  lemma DecodeInverts(g: Grid, v: nat, data: seq<Byte>, cw: seq<Byte>, out: seq<Byte>, k: nat)
    requires IsVersion(v) && Fits(v, |data|) && k < 8
    requires Flatten(cw) == Stream(data, v) && Encodes(out, cw, SpecOf(v))
    requires Shows(g, v, out, k)
    ensures Decode(g) == Some(data)
    ensures BlocksVanish(ReadCodewords(g, v), SpecOf(v))
  {
    hide SpecOf, ReadCodewords, Parse, Deinterleave, Stream, ReadData, Flatten, BlocksVanish, Shows, Decode, Fits;
    CodewordsReadBack(g, v, out, k);
    SpecsValid(v);
    DecodeShown(g, v, out, k);
    DeinterleaveInverts(out, cw, SpecOf(v));
    ParseStream(data, v);
  }

  /** On a shown symbol the reader recovers version and mask, and parses the de-interleaved codewords. */
  lemma DecodeShown(g: Grid, v: nat, out: seq<Byte>, k: nat)
    requires IsVersion(v) && k < 8 && ValidSpec(SpecOf(v)) && |out| == SpecOf(v).total
    requires Shows(g, v, out, k) && ReadCodewords(g, v) == out
    ensures Decode(g) == Parse(Flatten(Deinterleave(out, SpecOf(v), SpecOf(v).blocks)), v)
  {
    hide FinalModule, SpecOf, ReadCodewords, Parse, Deinterleave, IsLevelM, Flatten;
    FormatReadBack(g, v, out, k);
  }

  /**
   * The encoder.  The result is null when no version holds the message; otherwise it is
   * drawn in the smallest version that does, module by module as FinalModule says, and
   * the reader gets the message back from it, whatever the scores of the mask trials.
   */
  method QrMatrix(data: seq<Byte>, forceMask: Option<nat>, scores: seq<int>)
    returns (m: array2?<bool>, ghost ver: nat, ghost cw: seq<Byte>, ghost out: seq<Byte>, ghost mask: nat)
    requires |scores| == 8 && (forceMask.Some? ==> forceMask.value < 8)
    ensures m == null <==> |data| > 213
    ensures m != null ==> IsVersion(ver) && Fits(ver, |data|) && m.Length0 == m.Length1 == Size(ver)
    ensures m != null ==> forall v :: 1 <= v < ver ==> !Fits(v, |data|)
    ensures m != null ==> mask < 8 && if forceMask.Some? then mask == forceMask.value else IsBest(scores, mask)
    ensures m != null ==> Flatten(cw) == Stream(data, ver) && Encodes(out, cw, SpecOf(ver))
    ensures m != null ==> Shows(Rows(m), ver, out, mask)
    ensures m != null ==> Decode(Rows(m)) == Some(data)
    ensures m != null ==> BlocksVanish(ReadCodewords(Rows(m), ver), SpecOf(ver))
  {
    cw, out, mask, m := [], [], 0, null;
    var version := ChooseVersion(|data|);
    ver := version;
    if version == 0 {
      return;
    }
    SpecsValid(version);
    var words := BuildCodewords(data, version);
    var codewords := EncodeBlocks(words, SpecOf(version));
    var symbol, fn := DrawSymbol(version, codewords);
    var best := MaskAndFormat(symbol, fn, version, forceMask, scores, codewords);
    m, cw, out, mask := symbol, words, codewords, best;
    hide FinalModule, SpecOf, IsBest, Encodes, Decode, BlockStart, DataCw, Fits, Stream, Flatten, BlocksVanish;
    DecodeInverts(Rows(m), ver, data, cw, out, mask);
  }
}
