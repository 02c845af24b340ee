/**
 * The figures and tables printed in ISO/IEC 18004:2015 for the versions the
 * encoder draws, and proofs that its formulas give exactly these.
 */
module QrReference {
  import opened Arithmetic
  import opened GF256
  import opened QrStream
  import opened QrBlocks
  import opened QrGrid
  import opened QrMatrix

  // ---- tables 7 and 9: capacities and blocks --------------------------------------------------

  /** Number of 8-bit characters that versions 1 to 10 hold at level M. */
  const CAPACITY: seq<nat> := [14, 26, 42, 62, 84, 106, 122, 152, 180, 213]

  /** Number of blocks, codewords and data codewords of a block. */
  datatype Group = Group(count: nat, codewords: nat, data: nat)

  /** The one or two groups of blocks of versions 1 to 10 at level M. */
  const GROUPS: seq<seq<Group>> := [
    [Group(1, 26, 16)], [Group(1, 44, 28)], [Group(1, 70, 44)], [Group(2, 50, 32)], [Group(2, 67, 43)],
    [Group(4, 43, 27)], [Group(4, 49, 31)], [Group(2, 60, 38), Group(2, 61, 39)],
    [Group(3, 58, 36), Group(2, 59, 37)], [Group(4, 69, 43), Group(1, 70, 44)]]

  lemma FitsCapacity(v: nat, length: nat)
    requires IsVersion(v)
    ensures Fits(v, length) <==> length <= CAPACITY[v - 1]
  {
  }

  /** The group of block j. */
  function GroupOf(v: nat, j: nat): Group
    requires IsVersion(v)
  {
    var g := GROUPS[v - 1];
    if j < g[0].count then g[0] else g[|g| - 1]
  }

  lemma BlockNumbers(v: nat)
    requires IsVersion(v)
    ensures var g, sp := GROUPS[v - 1], SpecOf(v);
      |g| == (if v < 8 then 1 else 2) && ValidSpec(sp) && NumShort(sp) == g[0].count &&
      ShortLen(sp) == g[0].codewords && sp.ecLen == g[0].codewords - g[0].data
  {
  }

  lemma SecondGroup(v: nat)
    requires IsVersion(v) && v >= 8
    ensures var g, sp := GROUPS[v - 1], SpecOf(v);
      |g| == 2 && sp.blocks == g[0].count + g[1].count &&
      g[1] == Group(g[1].count, g[0].codewords + 1, g[0].data + 1)
  {
  }

  /** Each block has the data and check codewords of its group. */
  lemma BlocksAsPrinted(v: nat, j: nat)
    requires IsVersion(v) && j < SpecOf(v).blocks
    ensures ValidSpec(SpecOf(v))
    ensures SpecOf(v).blocks == GROUPS[v - 1][0].count + if v < 8 then 0 else GROUPS[v - 1][1].count
    ensures DataLen(SpecOf(v), j) == GroupOf(v, j).data
    ensures SpecOf(v).ecLen == GroupOf(v, j).codewords - GroupOf(v, j).data
  {
    BlockNumbers(v);
    if v >= 8 {
      SecondGroup(v);
    }
  }

  // ---- the bit stream (section 7.4) -----------------------------------------------------------

  lemma PaddingLast(k: nat)
    requires k > 0
    ensures Padding(k)[0..8 * (k - 1)] == Padding(k - 1) && Padding(k)[8 * (k - 1)..8 * (k - 1) + 8] == PadByte(k - 1)
  {
    hide PadByte;
  }

  lemma {:induction false} PaddingAt(k: nat, i: nat)
    requires i < k
    ensures Padding(k)[8 * i..8 * i + 8] == PadByte(i)
  {
    hide PadByte, Padding;
    PaddingLast(k);
    if i < k - 1 {
      PaddingAt(k - 1, i);
      Slice(Padding(k), 0, 8 * (k - 1), 8 * i, 8 * i + 8);
    }
  }

  lemma PadsAsPrinted(i: nat)
    ensures PadByte(i) == Bits(if i % 2 == 0 then "11101100" else "00010001")
  {
  }

  /** The parts of a stream, by their lengths. */
  lemma StreamParts(data: seq<Byte>, v: nat)
    requires IsVersion(v) && Fits(v, |data|)
    ensures var h, pads := 4 + CountBits(v), DataCw(v) - (8 + CountBits(v) + 8 * |data|) / 8;
      pads >= 0 && |Stream(data, v)| == h + 8 * |data| + 4 + 8 * pads &&
      Stream(data, v)[..h] == MODE_BYTE + NatBits(|data|, CountBits(v)) &&
      Stream(data, v)[h..h + 8 * |data|] == Flatten(data) &&
      Stream(data, v)[h + 8 * |data|..h + 8 * |data| + 4] == [false, false, false, false] &&
      Stream(data, v)[h + 8 * |data| + 4..] == Padding(pads)
  {
    hide Padding, NatBits, Flatten, SpecOf;
  }

  lemma Slice(s: seq<bool>, i: nat, j: nat, k: nat, l: nat)
    requires i + k <= i + l <= j <= |s|
    ensures s[i..j][k..l] == s[i + k..i + l]
  {
    assert |s[i..j][k..l]| == |s[i + k..i + l]|;
    assert forall m :: 0 <= m < l - k ==> s[i..j][k..l][m] == s[i + k..i + l][m];
  }

  lemma FrameBits()
    ensures MODE_BYTE == Bits("0100") && Bits("0000") == [false, false, false, false]
  {
  }

  lemma StreamHead(data: seq<Byte>, v: nat)
    requires IsVersion(v) && Fits(v, |data|)
    ensures |Stream(data, v)| >= 4 + CountBits(v) && Stream(data, v)[..4] == MODE_BYTE
    ensures Stream(data, v)[4..4 + CountBits(v)] == NatBits(|data|, CountBits(v))
  {
    hide NatBits, SpecOf, Stream, Padding, Flatten;
    StreamParts(data, v);
    var s, h := Stream(data, v), 4 + CountBits(v);
    Slice(s, 0, h, 0, 4);
    Slice(s, 0, h, 4, h);
    JoinParts(MODE_BYTE, NatBits(|data|, CountBits(v)));
  }

  lemma JoinParts(a: seq<bool>, b: seq<bool>)
    ensures (a + b)[..|a|] == a && (a + b)[|a|..] == b
  {
  }

  /** Byte mode, the number of characters in 8 or 16 bits, and four zeros behind the characters. */
  lemma StreamFrame(data: seq<Byte>, v: nat)
    requires IsVersion(v) && Fits(v, |data|)
    ensures var s, h := Stream(data, v), if v < 10 then 12 else 20;
      |s| == 8 * DataCw(v) >= h + 8 * |data| + 4 && s[..4] == Bits("0100") && BitsNat(s[4..h]) == |data| &&
      s[h + 8 * |data|..h + 8 * |data| + 4] == Bits("0000")
  {
    hide NatBits, SpecOf, Stream, Padding, Bits, BitsNat, Flatten;
    StreamHead(data, v);
    StreamParts(data, v);
    CountFits(data, v);
    FrameBits();
    BitsOfNat(|data|, CountBits(v));
  }

  /** The characters lie in between, eight bits each. */
  lemma StreamText(data: seq<Byte>, v: nat, i: nat)
    requires IsVersion(v) && Fits(v, |data|) && i < |data|
    ensures var h := if v < 10 then 12 else 20;
      h + 8 * i + 8 <= |Stream(data, v)| && Stream(data, v)[h + 8 * i..h + 8 * i + 8] == data[i]
  {
    hide NatBits, SpecOf, Stream, Padding, Flatten;
    StreamParts(data, v);
    FlattenAt(data, i);
    var s, h := Stream(data, v), 4 + CountBits(v);
    Slice(s, h, h + 8 * |data|, 8 * i, 8 * i + 8);
  }

  /** Behind the zeros the two pad codewords alternate to the end. */
  lemma StreamPads(data: seq<Byte>, v: nat, i: nat)
    requires IsVersion(v) && Fits(v, |data|)
    requires (if v < 10 then 24 else 32) + 8 * (|data| + i) <= 8 * DataCw(v)
    ensures var s, start := Stream(data, v), (if v < 10 then 16 else 24) + 8 * (|data| + i);
      start + 8 <= |s| && s[start..start + 8] == Bits(if i % 2 == 0 then "11101100" else "00010001")
  {
    hide NatBits, SpecOf, Stream, Padding, PadByte, Flatten, Bits;
    StreamParts(data, v);
    var s, at := Stream(data, v), (if v < 10 then 16 else 24) + 8 * |data|;
    var pads := DataCw(v) - (8 + CountBits(v) + 8 * |data|) / 8;
    PaddingAt(pads, i);
    PadsAsPrinted(i);
    hide DataCw, Fits;
    Slice(s, at, |s|, 8 * i, 8 * i + 8);
    assert s[at..|s|] == s[at..];
  }

  // ---- the patterns (sections 6.3.3 to 6.3.6) -------------------------------------------------------------

  /** A finder pattern with its separator, seen from the corner of the symbol. */
  const FINDER: seq<string> := [
    "#######.",
    "#.....#.",
    "#.###.#.",
    "#.###.#.",
    "#.###.#.",
    "#.....#.",
    "#######.",
    "........"]

  const ALIGNMENT: seq<string> := [
    "#####",
    "#...#",
    "#.#.#",
    "#...#",
    "#####"]

  /** Row and column coordinates of the alignment patterns of versions 1 to 10 (annex E). */
  const CENTRES: seq<seq<int>> := [
    [], [6, 18], [6, 22], [6, 26], [6, 30], [6, 34], [6, 22, 38], [6, 24, 42], [6, 26, 46], [6, 28, 50]]

  lemma CentresAsPrinted(v: nat)
    requires IsVersion(v)
    ensures AlignPos(v) == CENTRES[v - 1]
  {
  }

  /** Picture row y, column x. */
  predicate Dark(picture: seq<string>, y: int, x: int) {
    0 <= y < |picture| && 0 <= x < |picture[y]| && picture[y][x] == '#'
  }


  lemma FinderRow(x: int, y: int)
    requires 0 <= x < 8 && 0 <= y < 8
    ensures Dark(FINDER, y, x) <==> FinderDark(Ring(3, 3, Cell(x, y)))
  {
    assert |FINDER| == 8;
    if y == 0 || y == 6 {
      assert FINDER[y] == "#######.";
    } else if y == 1 || y == 5 {
      assert FINDER[y] == "#.....#.";
    } else if y == 7 {
      assert FINDER[y] == "........";
    } else {
      assert FINDER[y] == "#.###.#.";
    }
  }

  /** A module of a pattern that no format, version or alignment module lies on. */
  lemma PatternShown(v: nat, out: seq<Byte>, k: nat, c: Cell)
    requires IsVersion(v) && OnGrid(v, c) && (InFinder(v, c) || InTiming(c)) && !InFormat(v, c) && !InVersion(v, c)
    ensures FinalModule(v, out, k, c) == FunctionModule(v, c)
  {
    hide FunctionModule, InFormat, InVersion, InFinder, InAlignment, InTiming;
    ReservedParts(v, c);
  }

  lemma UpperLeftFinder(v: nat, c: Cell)
    requires IsVersion(v) && 0 <= c.x < 8 && 0 <= c.y < 8
    ensures InFinder(v, c) && !InFormat(v, c) && !InVersion(v, c)
    ensures FunctionModule(v, c) == FinderDark(Ring(3, 3, c))
  {
    hide AlignRing, AlignmentDark, FinderDark, TimingDark;
  }

  lemma UpperRightFinder(v: nat, x: int, y: int)
    requires IsVersion(v) && 0 <= x < 8 && 0 <= y < 8
    ensures var c := Cell(Size(v) - 1 - x, y);
      InFinder(v, c) && !InFormat(v, c) && !InVersion(v, c) &&
      FunctionModule(v, c) == FinderDark(Ring(3, 3, Cell(x, y)))
  {
    hide AlignRing, AlignmentDark, FinderDark, TimingDark;
    assert Ring(Size(v) - 4, 3, Cell(Size(v) - 1 - x, y)) == Ring(3, 3, Cell(x, y));
  }

  lemma LowerLeftFinder(v: nat, x: int, y: int)
    requires IsVersion(v) && 0 <= x < 8 && 0 <= y < 8
    ensures var c := Cell(x, Size(v) - 1 - y);
      InFinder(v, c) && !InFormat(v, c) && !InVersion(v, c) &&
      FunctionModule(v, c) == FinderDark(Ring(3, 3, Cell(x, y)))
  {
    hide AlignRing, AlignmentDark, FinderDark, TimingDark;
    assert Ring(3, Size(v) - 4, Cell(x, Size(v) - 1 - y)) == Ring(3, 3, Cell(x, y));
  }

  /** All three corners show the finder pattern, turned towards the middle. */
  lemma FindersShown(v: nat, out: seq<Byte>, k: nat, x: int, y: int)
    requires IsVersion(v) && 0 <= x < 8 && 0 <= y < 8
    ensures FinalModule(v, out, k, Cell(x, y)) <==> Dark(FINDER, y, x)
    ensures FinalModule(v, out, k, Cell(Size(v) - 1 - x, y)) <==> Dark(FINDER, y, x)
    ensures FinalModule(v, out, k, Cell(x, Size(v) - 1 - y)) <==> Dark(FINDER, y, x)
  {
    hide FinalModule, FunctionModule, Dark, Ring, FinderDark, InFinder, InFormat, InVersion, InTiming;
    FinderRow(x, y);
    UpperLeftFinder(v, Cell(x, y));
    UpperRightFinder(v, x, y);
    LowerLeftFinder(v, x, y);
    PatternShown(v, out, k, Cell(x, y));
    PatternShown(v, out, k, Cell(Size(v) - 1 - x, y));
    PatternShown(v, out, k, Cell(x, Size(v) - 1 - y));
  }

  lemma AlignmentAt(v: nat, i: nat, j: nat, c: Cell)
    requires IsVersion(v) && i < |AlignPos(v)| && j < |AlignPos(v)| && Ring(AlignPos(v)[i], AlignPos(v)[j], c) <= 2
    requires !IsCorner(Size(v), AlignPos(v)[i], AlignPos(v)[j])
    ensures InAlignment(v, c) && AlignRing(v, c) == Ring(AlignPos(v)[i], AlignPos(v)[j], c)
  {
    hide Ring, Near, InAlignment;
    AlignedSquare(v, c, j, i);
    AlignedAll(v, c);
  }

  /** The two alignment patterns on the timing lines have the colours of the lines. */
  lemma TimingAligned(v: nat, i: int)
    requires IsVersion(v) && v >= 7 && Mid(v) - 2 <= i <= Mid(v) + 2
    ensures InAlignment(v, Cell(6, i)) && (AlignmentDark(AlignRing(v, Cell(6, i))) <==> i % 2 == 0)
    ensures InAlignment(v, Cell(i, 6)) && (AlignmentDark(AlignRing(v, Cell(i, 6))) <==> i % 2 == 0)
  {
    hide AlignRing, InAlignment;
    AlignmentAt(v, 0, 1, Cell(6, i));
    AlignmentAt(v, 1, 0, Cell(i, 6));
  }

  lemma TimingAlone(v: nat, i: int)
    requires IsVersion(v) && 8 <= i < Size(v) - 8 && (v >= 7 ==> !(Mid(v) - 2 <= i <= Mid(v) + 2))
    ensures !InAlignment(v, Cell(6, i)) && !InAlignment(v, Cell(i, 6))
  {
  }

  lemma TimingCells(v: nat, i: int)
    requires IsVersion(v) && 8 <= i < Size(v) - 8
    ensures FunctionModule(v, Cell(6, i)) <==> i % 2 == 0
    ensures FunctionModule(v, Cell(i, 6)) <==> i % 2 == 0
  {
    hide FinderDark, InAlignment, AlignmentDark, AlignRing;
    if v >= 7 && Mid(v) - 2 <= i <= Mid(v) + 2 {
      TimingAligned(v, i);
    } else {
      TimingAlone(v, i);
    }
  }

  /** The lines between the finders alternate, dark first, through the alignment patterns on them. */
  lemma TimingShown(v: nat, out: seq<Byte>, k: nat, i: int)
    requires IsVersion(v) && 8 <= i < Size(v) - 8
    ensures FinalModule(v, out, k, Cell(6, i)) <==> i % 2 == 0
    ensures FinalModule(v, out, k, Cell(i, 6)) <==> i % 2 == 0
  {
    hide FinalModule, FunctionModule, InFinder;
    TimingCells(v, i);
    PatternShown(v, out, k, Cell(6, i));
    PatternShown(v, out, k, Cell(i, 6));
  }

  lemma AlignmentRow(cx: int, cy: int, x: int, y: int)
    requires 0 <= x < 5 && 0 <= y < 5
    ensures Ring(cx, cy, Cell(cx - 2 + x, cy - 2 + y)) <= 2
    ensures Dark(ALIGNMENT, y, x) <==> AlignmentDark(Ring(cx, cy, Cell(cx - 2 + x, cy - 2 + y)))
  {
    if y == 0 || y == 4 {
      assert ALIGNMENT[y] == "#####";
    } else if y == 2 {
      assert ALIGNMENT[y] == "#.#.#";
    } else {
      assert ALIGNMENT[y] == "#...#";
    }
  }

  lemma AlignmentCell(v: nat, c: Cell)
    requires IsVersion(v) && InAlignment(v, c)
    ensures OnGrid(v, c) && Reserved(v, c) && !InFormat(v, c) && !InVersion(v, c)
  {
  }

  lemma AlignmentShown(v: nat, out: seq<Byte>, k: nat, c: Cell)
    requires IsVersion(v) && InAlignment(v, c)
    ensures FinalModule(v, out, k, c) == AlignmentDark(AlignRing(v, c))
  {
    hide InAlignment, InFormat, InVersion, Reserved, AlignmentDark, AlignRing;
    AlignmentCell(v, c);
  }

  /** An alignment pattern stands at every pair of coordinates but the three on a finder pattern. */
  lemma AlignmentsShown(v: nat, out: seq<Byte>, k: nat, i: nat, j: nat, x: int, y: int)
    requires IsVersion(v) && i < |CENTRES[v - 1]| && j < |CENTRES[v - 1]| && 0 <= x < 5 && 0 <= y < 5
    requires (i, j) != (0, 0) && (i, j) != (0, |CENTRES[v - 1]| - 1) && (i, j) != (|CENTRES[v - 1]| - 1, 0)
    ensures FinalModule(v, out, k, Cell(CENTRES[v - 1][i] - 2 + x, CENTRES[v - 1][j] - 2 + y)) <==>
            Dark(ALIGNMENT, y, x)
  {
    hide Ring, Dark, InAlignment, AlignmentDark, AlignRing, FinalModule;
    var a := AlignPos(v);
    CentresAsPrinted(v);
    assert !IsCorner(Size(v), a[i], a[j]);
    hide AlignPos, IsCorner;
    var c := Cell(a[i] - 2 + x, a[j] - 2 + y);
    AlignmentRow(a[i], a[j], x, y);
    AlignmentAt(v, i, j, c);
    AlignmentShown(v, out, k, c);
  }

  // ---- annexes C and D: format and version information ------------------------------------------

  /** The format information of level M and masks 0 to 7. */
  const FORMATS: seq<string> := [
    "101010000010010", "101000100100101", "101111001111100", "101101101001011",
    "100010111111001", "100000011001110", "100111110010111", "100101010100000"]

  /** The version information of versions 7 to 10. */
  const VERSIONS: seq<string> := [
    "000111110010010100", "001000010110111100", "001001101010011001", "001010010011010011"]

  /** Shifting leading zeros out leaves the rest on the left. */
  lemma {:induction false} ZerosOut(rest: seq<bool>, poly: seq<bool>, n: nat, m: nat)
    requires |poly| == n + |rest| >= 1 && m <= n
    ensures ShiftOut(seq(n, i => false) + rest, poly, m) == seq(n - m, i => false) + rest + seq(m, i => false)
  {
    if m > 0 {
      ZerosOut(rest, poly, n, m - 1);
      var r := ShiftOut(seq(n, i => false) + rest, poly, m - 1);
      assert !r[0];
      assert r[1..] + [false] == seq(n - m, i => false) + rest + seq(m, i => false);
    }
  }

  /** One shift of the division register. */
  function Feed(r: seq<bool>, poly: seq<bool>): seq<bool>
    requires |r| == |poly| >= 1
  {
    seq(|r|, i requires 0 <= i < |r| => (i + 1 < |r| && r[i + 1]) != (r[0] && poly[i]))
  }

  lemma NextShift(register: seq<bool>, poly: seq<bool>, n: nat, r: seq<bool>)
    requires |register| == |poly| >= 1 && ShiftOut(register, poly, n) == r
    ensures ShiftOut(register, poly, n + 1) == Feed(r, poly)
  {
  }

  /** The register of the format code after the leading zeros of mask number abc and n shifts more. */
  function FormatRegister(n: nat, a: bool, b: bool, c: bool): (r: seq<bool>)
    ensures |r| == 10
  {
    if n == 0 then [a, b, c, false, false, false, false, false, false, false]
    else if n == 1 then [b, a != c, false, false, a, a, false, a, a, a]
    else if n == 2 then [a != c, b, false, a, a != b, b, a, a != b, a != b, b]
    else [b, a != c, a, a != b, (a != b) != c, c, a != b, b != c, (a != b) != c, a != c]
  }

  /** The same for a version number whose four digits are a, not a, c and d. */
  function VersionRegister(n: nat, a: bool, c: bool, d: bool): (r: seq<bool>)
    ensures |r| == 12
  {
    if n == 0 then [a, !a, c, d, false, false, false, false, false, false, false, false]
    else if n == 1 then [true, a != c, a != d, a, false, false, a, false, false, a, false, a]
    else if n == 2 then [a == c, a == d, !a, true, false, a, true, false, a, true, a, true]
    else if n == 3 then [c != d, c, a != c, a == c, a, true, a == c, a, true, !c, true, a == c]
    else [d, a != d, a == d, (a != c) != d, true, a == c, (a != c) != d, true, !c, c == d, a == c, c != d]
  }

  lemma FormatRow1(a: bool, b: bool, c: bool)
    ensures Feed(FormatRegister(0, a, b, c), FORMAT_POLY) == FormatRegister(1, a, b, c)
  {
  }

  lemma FormatRow2(a: bool, b: bool, c: bool)
    ensures Feed(FormatRegister(1, a, b, c), FORMAT_POLY) == FormatRegister(2, a, b, c)
  {
  }

  lemma FormatRow3(a: bool, b: bool, c: bool)
    ensures Feed(FormatRegister(2, a, b, c), FORMAT_POLY) == FormatRegister(3, a, b, c)
  {
  }

  lemma FormatStart(a: bool, b: bool, c: bool)
    ensures ShiftOut(seq(7, i => false) + [a, b, c], FORMAT_POLY, 7) == FormatRegister(0, a, b, c)
  {
    hide ShiftOut;
    ZerosOut([a, b, c], FORMAT_POLY, 7, 7);
    assert seq(0, i => false) + [a, b, c] + seq(7, i => false) == FormatRegister(0, a, b, c);
  }

  lemma FormatShifts(register: seq<bool>, a: bool, b: bool, c: bool)
    requires |register| == 10 && ShiftOut(register, FORMAT_POLY, 7) == FormatRegister(0, a, b, c)
    ensures ShiftOut(register, FORMAT_POLY, 10) == FormatRegister(3, a, b, c)
  {
    hide ShiftOut, Feed, FormatRegister;
    FormatRow1(a, b, c);
    NextShift(register, FORMAT_POLY, 7, FormatRegister(0, a, b, c));
    FormatRow2(a, b, c);
    NextShift(register, FORMAT_POLY, 8, FormatRegister(1, a, b, c));
    FormatRow3(a, b, c);
    NextShift(register, FORMAT_POLY, 9, FormatRegister(2, a, b, c));
  }


  lemma VersionRow1(a: bool, c: bool, d: bool)
    ensures Feed(VersionRegister(0, a, c, d), VERSION_POLY) == VersionRegister(1, a, c, d)
  {
  }

  lemma VersionRow2(a: bool, c: bool, d: bool)
    ensures Feed(VersionRegister(1, a, c, d), VERSION_POLY) == VersionRegister(2, a, c, d)
  {
  }

  lemma VersionRow3(a: bool, c: bool, d: bool)
    ensures Feed(VersionRegister(2, a, c, d), VERSION_POLY) == VersionRegister(3, a, c, d)
  {
  }

  lemma VersionRow4(a: bool, c: bool, d: bool)
    ensures Feed(VersionRegister(3, a, c, d), VERSION_POLY) == VersionRegister(4, a, c, d)
  {
  }

  lemma VersionStart(a: bool, c: bool, d: bool)
    ensures ShiftOut(seq(8, i => false) + [a, !a, c, d], VERSION_POLY, 8) == VersionRegister(0, a, c, d)
  {
    hide ShiftOut;
    ZerosOut([a, !a, c, d], VERSION_POLY, 8, 8);
    assert seq(0, i => false) + [a, !a, c, d] + seq(8, i => false) == VersionRegister(0, a, c, d);
  }

  lemma VersionShifts(register: seq<bool>, a: bool, c: bool, d: bool)
    requires |register| == 12 && ShiftOut(register, VERSION_POLY, 8) == VersionRegister(0, a, c, d)
    ensures ShiftOut(register, VERSION_POLY, 12) == VersionRegister(4, a, c, d)
  {
    hide ShiftOut, Feed, VersionRegister;
    VersionRow1(a, c, d);
    NextShift(register, VERSION_POLY, 8, VersionRegister(0, a, c, d));
    VersionRow2(a, c, d);
    NextShift(register, VERSION_POLY, 9, VersionRegister(1, a, c, d));
    VersionRow3(a, c, d);
    NextShift(register, VERSION_POLY, 10, VersionRegister(2, a, c, d));
    VersionRow4(a, c, d);
    NextShift(register, VERSION_POLY, 11, VersionRegister(3, a, c, d));
  }


  lemma {:induction false} NatBitsZero(n: nat)
    ensures NatBits(0, n) == seq(n, i => false)
  {
    if n > 0 {
      NatBitsZero(n - 1);
    }
  }

  lemma {:induction false} NatBitsTop(val: nat, n: nat, m: nat)
    requires val < Pow2(m)
    ensures NatBits(val, n + m) == seq(n, i => false) + NatBits(val, m)
  {
    if m == 0 {
      NatBitsZero(n);
    } else {
      NatBitsTop(val / 2, n, m - 1);
    }
  }

  function One(b: bool): nat {
    if b then 1 else 0
  }

  lemma FourDigits(k: nat, a: bool, b: bool, c: bool, d: bool)
    requires k == 8 * One(a) + 4 * One(b) + 2 * One(c) + One(d)
    ensures k < Pow2(4) && NatBits(k, 4) == [a, b, c, d]
  {
    hide NatBits;
    assert Pow2(4) == 16;
    LastBit(k, 4);
    LastBit(k / 2, 3);
    LastBit(k / 4, 2);
    LastBit(k / 8, 1);
    hide Pow2;
    assert k / 2 == 4 * One(a) + 2 * One(b) + One(c) && k / 4 == 2 * One(a) + One(b) && k / 8 == One(a);
  }

  lemma FormatBitsAre(k: nat, a: bool, b: bool, c: bool)
    requires k == 4 * One(a) + 2 * One(b) + One(c)
    ensures FormatBits(k) == XorList([false, false, a, b, c] + FormatRegister(3, a, b, c), FORMAT_XOR)
  {
    hide NatBits, ShiftOut, Pow2, XorList, FormatRegister;
    FourDigits(k, false, a, b, c);
    hide One;
    NatBitsTop(k, 1, 4);
    NatBitsTop(k, 6, 4);
    assert seq(6, i => false) + [false, a, b, c] == seq(7, i => false) + [a, b, c];
    FormatStart(a, b, c);
    FormatShifts(NatBits(k, 10), a, b, c);
    assert seq(1, i => false) + [false, a, b, c] == [false, false, a, b, c];
  }

  lemma VersionBitsAre(v: nat, a: bool, c: bool, d: bool)
    requires v == 4 + 4 * One(a) + 2 * One(c) + One(d)
    ensures VersionBits(v) == [false, false, a, !a, c, d] + VersionRegister(4, a, c, d)
  {
    hide NatBits, ShiftOut, Pow2, XorList, VersionRegister;
    FourDigits(v, a, !a, c, d);
    hide One;
    NatBitsTop(v, 2, 4);
    NatBitsTop(v, 8, 4);
    VersionStart(a, c, d);
    VersionShifts(NatBits(v, 12), a, c, d);
    assert seq(2, i => false) + [a, !a, c, d] == [false, false, a, !a, c, d];
  }

  lemma LowFormatTable(k: nat, b: bool, c: bool)
    requires k < 4 && b == (k >= 2) && c == (k % 2 == 1)
    ensures Bits(FORMATS[k]) == XorList([false, false, false, b, c] + FormatRegister(3, false, b, c), FORMAT_XOR)
  {
  }

  lemma HighFormatTable(k: nat, b: bool, c: bool)
    requires 4 <= k < 8 && b == (k >= 6) && c == (k % 2 == 1)
    ensures Bits(FORMATS[k]) == XorList([false, false, true, b, c] + FormatRegister(3, true, b, c), FORMAT_XOR)
  {
  }

  /** The encoder computes the printed format information. */
  lemma FormatCode(k: nat)
    requires k < 8
    ensures FormatBits(k) == Bits(FORMATS[k])
  {
    var a, b, c := k >= 4, k % 4 >= 2, k % 2 == 1;
    FormatBitsAre(k, a, b, c);
    hide FormatBits, One, XorList, FormatRegister;
    if a {
      HighFormatTable(k, b, c);
    } else {
      LowFormatTable(k, b, c);
    }
  }

  lemma VersionTable(v: nat)
    requires 7 <= v <= 10
    ensures Bits(VERSIONS[v - 7]) == [false, false, v >= 8, v < 8, v == 7 || v == 10, v % 2 == 1] +
      VersionRegister(4, v >= 8, v == 7 || v == 10, v % 2 == 1)
  {
  }

  /** And the printed version information. */
  lemma VersionCode(v: nat)
    requires 7 <= v <= 10
    ensures VersionBits(v) == Bits(VERSIONS[v - 7])
  {
    VersionBitsAre(v, v >= 8, v == 7 || v == 10, v % 2 == 1);
    hide VersionBits, VersionRegister, One;
    VersionTable(v);
  }

  /** Where the format bits stand around the upper left finder, the leading one first. */
  function FirstCopy(j: nat): Cell {
    if j < 6 then Cell(j, 8) else if j == 6 then Cell(7, 8) else if j == 7 then Cell(8, 8)
    else if j == 8 then Cell(8, 7) else Cell(8, 14 - j)
  }

  /** And beside the other two, below and to the right. */
  function SecondCopy(v: nat, j: nat): Cell {
    if j < 7 then Cell(8, Size(v) - 1 - j) else Cell(Size(v) - 15 + j, 8)
  }

  lemma FormatPlaces(v: nat, j: nat)
    requires IsVersion(v) && j < 15
    ensures InFormat(v, FirstCopy(j)) && FormatIndex(v, FirstCopy(j)) == 14 - j
    ensures InFormat(v, SecondCopy(v, j)) && FormatIndex(v, SecondCopy(v, j)) == 14 - j
    ensures FirstCopy(j) != Cell(8, Size(v) - 8) && SecondCopy(v, j) != Cell(8, Size(v) - 8)
  {
  }

  /** Both copies show the printed format information, and the module above the lower left finder is dark. */
  lemma FormatsShown(v: nat, out: seq<Byte>, k: nat, j: nat)
    requires IsVersion(v) && k < 8 && j < 15
    ensures FinalModule(v, out, k, FirstCopy(j)) <==> FORMATS[k][j] == '1'
    ensures FinalModule(v, out, k, SecondCopy(v, j)) <==> FORMATS[k][j] == '1'
    ensures FinalModule(v, out, k, Cell(8, Size(v) - 8))
  {
    hide Reserved, FirstCopy, SecondCopy, FormatBits, FormatIndex, InVersion, FunctionModule, VersionModule;
    FormatPlaces(v, j);
    FormatCode(k);
    assert |FORMATS[k]| == 15;
    hide InFormat;
    FormatReserved(v, FirstCopy(j));
    FormatReserved(v, SecondCopy(v, j));
    DarkModule(v);
  }

  lemma DarkModule(v: nat)
    requires IsVersion(v)
    ensures InFormat(v, Cell(8, Size(v) - 8)) && Reserved(v, Cell(8, Size(v) - 8))
  {
  }

  lemma VersionPlaces(v: nat, j: nat)
    requires 7 <= v <= 10 && j < 18
    ensures var c := Cell(Size(v) - 11 + j % 3, j / 3);
      InVersion(v, c) && !InFormat(v, c) && InVersion(v, Cell(c.y, c.x)) && !InFormat(v, Cell(c.y, c.x))
  {
  }

  lemma VersionModuleShown(v: nat, out: seq<Byte>, k: nat, c: Cell)
    requires InVersion(v, c) && !InFormat(v, c)
    ensures FinalModule(v, out, k, c) == VersionModule(v, c)
  {
    hide Reserved, InVersion, InFormat, VersionModule;
    FormatReserved(v, c);
  }

  lemma VersionBit(v: nat, j: nat)
    requires 7 <= v <= 10 && j < 18
    ensures |VERSIONS[v - 7]| == 18 && (VersionBits(v)[17 - j] <==> VERSIONS[v - 7][17 - j] == '1')
  {
    hide VersionBits;
    VersionCode(v);
  }

  /** Both blocks show the printed version information, its last bit first. */
  lemma VersionsShown(v: nat, out: seq<Byte>, k: nat, j: nat)
    requires 7 <= v <= 10 && j < 18
    ensures FinalModule(v, out, k, Cell(Size(v) - 11 + j % 3, j / 3)) <==> VERSIONS[v - 7][17 - j] == '1'
    ensures FinalModule(v, out, k, Cell(j / 3, Size(v) - 11 + j % 3)) <==> VERSIONS[v - 7][17 - j] == '1'
  {
    hide FinalModule, VersionModule, VersionBits, InVersion, InFormat, VERSIONS;
    VersionBit(v, j);
    VersionPlaces(v, j);
    VersionModuleShown(v, out, k, Cell(Size(v) - 11 + j % 3, j / 3));
    VersionModuleShown(v, out, k, Cell(j / 3, Size(v) - 11 + j % 3));
    VersionShown(v, j, Size(v) - 11 + j % 3, j / 3);
  }

  // ---- the masks (section 7.8.2) -------------------------------------------------------------------

  /** The repeating part of each mask pattern, dark where a module is inverted. */
  const MASKS: seq<seq<string>> := [
    ["#.", ".#"],
    ["#", "."],
    ["#.."],
    ["#..", "..#", ".#."],
    ["###...", "###...", "...###", "...###"],
    ["######", "#.....", "#..#..", "#.#.#.", "#..#..", "#....."],
    ["######", "###...", "##.##.", "#.#.#.", "#.##.#", "#...##"],
    ["#.#.#.", "...###", "#...##", ".#.#.#", "###...", ".###.."]]

  /** Width and height of a picture. */
  function Width(k: nat): (w: nat)
    requires k < 8
    ensures w == (if k == 0 then 2 else if k == 1 then 1 else if k == 2 || k == 3 then 3 else 6) == |MASKS[k][0]|
  {
    |MASKS[k][0]|
  }

  function Height(k: nat): (h: nat)
    requires k < 8
    ensures h == (if k < 2 then 2 else if k == 2 then 1 else if k == 3 then 3 else if k == 4 then 4 else 6)
    ensures h == |MASKS[k]|
  {
    |MASKS[k]|
  }

  lemma RestTwo(q: int, r: int)
    ensures (2 * q + r) % 2 == r % 2
  {
  }

  lemma RestThree(q: int, r: int)
    ensures (3 * q + r) % 3 == r % 3
  {
  }

  lemma SumRest(a: nat, b: nat)
    ensures (a + b) % 2 == (a % 2 + b % 2) % 2 == (a % 6 + b % 6) % 2
    ensures (a + b) % 3 == (a % 3 + b % 3) % 3
  {
    RestTwo(a / 2 + b / 2, a % 2 + b % 2);
    RestTwo(3 * (a / 6) + 3 * (b / 6), a % 6 + b % 6);
    RestThree(a / 3 + b / 3, a % 3 + b % 3);
  }

  lemma Expand(q: nat, x: nat, r: nat, y: nat)
    ensures (6 * q + x) * (6 * r + y) == 6 * (6 * (q * r) + q * y + x * r) + x * y
  {
  }

  lemma ProductRest(a: nat, b: nat)
    ensures (a * b) % 2 == ((a % 6) * (b % 6)) % 2 && (a * b) % 3 == ((a % 6) * (b % 6)) % 3
  {
    var q, x, r, y := a / 6, a % 6, b / 6, b % 6;
    Expand(q, x, r, y);
    var m := 6 * (q * r) + q * y + x * r;
    assert a * b == 6 * m + x * y;
    RestTwo(3 * m, x * y);
    RestThree(2 * m, x * y);
  }

  lemma QuarterHalves(x: nat, y: nat)
    ensures (y / 2 + x / 3) % 2 == (y % 4 / 2 + x % 6 / 3) % 2
  {
    assert y / 2 == 2 * (y / 4) + y % 4 / 2 && x / 3 == 2 * (x / 6) + x % 6 / 3;
  }

  lemma SmallRepeats(k: nat, c: Cell)
    requires k < 4 && c.x >= 0 && c.y >= 0
    ensures Mask(k, c) <==> Mask(k, Cell(c.x % Width(k), c.y % Height(k)))
  {
    hide Width, Height;
    SumRest(c.x, c.y);
  }

  lemma LargeRepeats(k: nat, c: Cell)
    requires 5 <= k < 8 && c.x >= 0 && c.y >= 0
    ensures Mask(k, c) <==> Mask(k, Cell(c.x % 6, c.y % 6))
  {
    SumRest(c.x, c.y);
    ProductRest(c.x, c.y);
  }

  /** A mask repeats with its picture. */
  lemma MaskRepeats(k: nat, c: Cell)
    requires k < 8 && c.x >= 0 && c.y >= 0
    ensures Mask(k, c) <==> Mask(k, Cell(c.x % Width(k), c.y % Height(k)))
  {
    hide Width, Height;
    if k == 4 {
      QuarterHalves(c.x, c.y);
    } else {
      hide Mask;
      if k < 4 {
        SmallRepeats(k, c);
      } else {
        LargeRepeats(k, c);
      }
    }
  }

  lemma SmallPicture(k: nat, x: int, y: int)
    requires k < 5 && 0 <= x < Width(k) && 0 <= y < Height(k)
    ensures Mask(k, Cell(x, y)) <==> Dark(MASKS[k], y, x)
  {
    if k == 4 && y < 2 {
      assert MASKS[k][y] == "###...";
    } else if k == 4 {
      assert MASKS[k][y] == "...###";
    }
  }

  lemma SmallProduct(x: int, y: int)
    requires 0 <= y < 6
    ensures x * y ==
      if y == 0 then 0 else if y == 1 then x else if y == 2 then 2 * x else if y == 3 then 3 * x
      else if y == 4 then 4 * x else 5 * x
  {
  }

  lemma Picture5(x: int, y: int)
    requires 0 <= x < 6 && 0 <= y < 6
    ensures Mask(5, Cell(x, y)) <==> Dark(MASKS[5], y, x)
  {
    SmallProduct(x, y);
  }

  lemma Picture6(x: int, y: int)
    requires 0 <= x < 6 && 0 <= y < 6
    ensures Mask(6, Cell(x, y)) <==> Dark(MASKS[6], y, x)
  {
    SmallProduct(x, y);
  }

  lemma Picture7(x: int, y: int)
    requires 0 <= x < 6 && 0 <= y < 6
    ensures Mask(7, Cell(x, y)) <==> Dark(MASKS[7], y, x)
  {
    SmallProduct(x, y);
  }

  /** Every mask is its picture, repeated over the symbol. */
  lemma MasksAsPrinted(k: nat, c: Cell)
    requires k < 8 && c.x >= 0 && c.y >= 0
    ensures Mask(k, c) <==> Dark(MASKS[k], c.y % |MASKS[k]|, c.x % |MASKS[k][0]|)
  {
    hide Mask, Dark;
    var x, y := c.x % Width(k), c.y % Height(k);
    MaskRepeats(k, c);
    if k < 5 {
      SmallPicture(k, x, y);
    } else if k == 5 {
      Picture5(x, y);
    } else if k == 6 {
      Picture6(x, y);
    } else {
      Picture7(x, y);
    }
  }
}
