/**
 * The powers of 2 in GF(256): the first 255 are distinct, so the reduction
 * polynomial is primitive and all roots of a generator differ.
 */
module Powers {
  import opened GF256
  import opened ReedSolomon

  // ---- laws of powers -----------------------------------------------------------

  lemma {:induction false} PowAdd(x: Byte, m: nat, n: nat)
    ensures Pow(x, m + n) == Mul(Pow(x, m), Pow(x, n))
  {
    hide Mul;
    if n == 0 {
      MulOne(Pow(x, m));
    } else {
      PowAdd(x, m, n - 1);
      MulAssociates(Pow(x, m), Pow(x, n - 1), x);
    }
  }

  lemma {:induction false} PowOfPow(x: Byte, m: nat, n: nat)
    ensures Pow(Pow(x, m), n) == Pow(x, m * n)
  {
    hide Mul;
    if n > 0 {
      PowOfPow(x, m, n - 1);
      PowAdd(x, m * (n - 1), m);
      assert m * (n - 1) + m == m * n;
    } else {
      assert m * 0 == 0;
    }
  }

  lemma {:induction false} PowOfOne(n: nat)
    ensures Pow(ONE, n) == ONE
  {
    hide Mul;
    if n > 0 {
      PowOfOne(n - 1);
      MulOne(ONE);
    }
  }

  /** Taking multiples of b off an exponent, when the power b is 1. */
  lemma {:induction false} PowRest(x: Byte, q: nat, b: nat, r: nat)
    requires Pow(x, b) == ONE
    ensures Pow(x, q * b + r) == Pow(x, r)
  {
    hide Pow, Mul;
    PowAdd(x, q * b, r);
    PowOfPow(x, b, q);
    PowOfOne(q);
    assert b * q == q * b;
    MulOne(Pow(x, r));
  }

  /** When a power is 1 for a prime exponent and a smaller one, the base is 1. */
  lemma {:induction false} OnlyOne(x: Byte, p: nat, r: nat)
    requires p in {3, 5, 17} && 0 < r < p
    requires Pow(x, p) == ONE && Pow(x, r) == ONE
    ensures x == ONE
    decreases r
  {
    if r == 1 {
      MulOne(x);
      assert Pow(x, 0) == ONE;
    } else {
      hide Pow;
      PowRest(x, p / r, r, p % r);
      PrimeRest(p, r);
      assert p == p / r * r + p % r;
      OnlyOne(x, p, p % r);
    }
  }

  lemma PrimeRest(p: nat, r: nat)
    requires p in {3, 5, 17} && 1 < r < p
    ensures p % r != 0
  {
    if p == 17 {
      assert r == 2 || r == 3 || r == 4 || r == 5 || r == 6 || r == 7 || r == 8 || r == 9 ||
             r == 10 || r == 11 || r == 12 || r == 13 || r == 14 || r == 15 || r == 16;
    } else {
      assert r == 2 || r == 3 || r == 4;
    }
  }

  // ---- some powers of 2 -----------------------------------------------------------

  lemma Doubled(n: nat, r: string, s: string)
    requires |r| == |s| == 8 && Root(n) == Bits(r) && Double(Bits(r)) == Bits(s)
    ensures Root(n + 1) == Bits(s)
  {
    MulTwo(Root(n));
  }

  /** One step of the multiplication loop. */
  predicate Step(a: string, digit: char, h: string, h': string) {
    |a| == |h| == |h'| == 8 && Xor(Double(Bits(h)), When(digit == '1', Bits(a))) == Bits(h')
  }

  lemma NextStep(a: string, b: string, k: nat, h: string, h': string)
    requires |b| == 8 && k < 8 && Step(a, b[k], h, h')
    requires Horner(Bits(a), Bits(b)[..k]) == Bits(h)
    ensures Horner(Bits(a), Bits(b)[..k + 1]) == Bits(h')
  {
    hide Xor, Double, When;
    assert Bits(b)[..k + 1][..k] == Bits(b)[..k];
  }

  /** The product of two powers by the steps of the loop. */
  lemma Multiplied(m: nat, n: nat, a: string, b: string, h: seq<string>)
    requires |a| == |b| == 8 && Root(m) == Bits(a) && Root(n) == Bits(b)
    requires |h| == 8 && Step(a, b[0], "00000000", h[0]) && Step(a, b[1], h[0], h[1]) && Step(a, b[2], h[1], h[2])
    requires Step(a, b[3], h[2], h[3]) && Step(a, b[4], h[3], h[4]) && Step(a, b[5], h[4], h[5])
    requires Step(a, b[6], h[5], h[6]) && Step(a, b[7], h[6], h[7])
    ensures Root(m + n) == Bits(h[7])
  {
    hide Pow, Horner, Step;
    PowAdd(TWO, m, n);
    Nothing(a, b);
    NextStep(a, b, 0, "00000000", h[0]);
    NextStep(a, b, 1, h[0], h[1]);
    NextStep(a, b, 2, h[1], h[2]);
    NextStep(a, b, 3, h[2], h[3]);
    NextStep(a, b, 4, h[3], h[4]);
    NextStep(a, b, 5, h[4], h[5]);
    NextStep(a, b, 6, h[5], h[6]);
    NextStep(a, b, 7, h[6], h[7]);
    assert Bits(b)[..8] == Bits(b);
  }

  lemma Nothing(a: string, b: string)
    requires |a| == |b| == 8
    ensures Horner(Bits(a), Bits(b)[..0]) == Bits("00000000")
  {
    assert Bits("00000000") == ZERO;
  }

  lemma Power0()
    ensures Root(0) == Bits("00000001")
  {
    assert Bits("00000001") == ONE;
  }

  lemma Power4()
    ensures Root(4) == Bits("00010000")
  {
    hide Pow;
    Power0();
    Doubled(0, "00000001", "00000010");
    Doubled(1, "00000010", "00000100");
    Doubled(2, "00000100", "00001000");
    Doubled(3, "00001000", "00010000");
  }

  /** 0x11D vanishes at 2: the eighth power is the rest of the polynomial. */
  lemma Power8()
    ensures Root(8) == Bits("00011101")
  {
    hide Pow;
    Power4();
    Doubled(4, "00010000", "00100000");
    Doubled(5, "00100000", "01000000");
    Doubled(6, "01000000", "10000000");
    Doubled(7, "10000000", "00011101");
  }

  lemma Power15()
    ensures Root(15) == Bits("00100110")
  {
    hide Pow;
    Power8();
    Doubled(8, "00011101", "00111010");
    Doubled(9, "00111010", "01110100");
    Doubled(10, "01110100", "11101000");
    Doubled(11, "11101000", "11001101");
    Doubled(12, "11001101", "10000111");
    Doubled(13, "10000111", "00010011");
    Doubled(14, "00010011", "00100110");
  }

  lemma Power17()
    ensures Root(17) == Bits("10011000")
  {
    hide Pow;
    Power15();
    Doubled(15, "00100110", "01001100");
    Doubled(16, "01001100", "10011000");
  }

  lemma Power34()
    ensures Root(34) == Bits("01001110")
  {
    hide Pow, Step;
    Power17();
    Steps34();
    Multiplied(17, 17, "10011000", "10011000",
      ["10011000", "00101101", "01011010", "00101100",
       "11000000", "10011101", "00100111", "01001110"]);
  }

  lemma Steps34()
    ensures Step("10011000", '1', "00000000", "10011000")
    ensures Step("10011000", '0', "10011000", "00101101")
    ensures Step("10011000", '0', "00101101", "01011010")
    ensures Step("10011000", '1', "01011010", "00101100")
    ensures Step("10011000", '1', "00101100", "11000000")
    ensures Step("10011000", '0', "11000000", "10011101")
    ensures Step("10011000", '0', "10011101", "00100111")
    ensures Step("10011000", '0', "00100111", "01001110")
  {
  }

  lemma Power51()
    ensures Root(51) == Bits("00001010")
  {
    hide Pow, Step;
    Power34();
    Power17();
    Steps51();
    Multiplied(34, 17, "01001110", "10011000",
      ["01001110", "10011100", "00100101", "00000100",
       "01000110", "10001100", "00000101", "00001010"]);
  }

  lemma Steps51()
    ensures Step("01001110", '1', "00000000", "01001110")
    ensures Step("01001110", '0', "01001110", "10011100")
    ensures Step("01001110", '0', "10011100", "00100101")
    ensures Step("01001110", '1', "00100101", "00000100")
    ensures Step("01001110", '1', "00000100", "01000110")
    ensures Step("01001110", '0', "01000110", "10001100")
    ensures Step("01001110", '0', "10001100", "00000101")
    ensures Step("01001110", '0', "00000101", "00001010")
  {
  }

  lemma Power85()
    ensures Root(85) == Bits("11010110")
  {
    hide Pow, Step;
    Power51();
    Power34();
    Steps85();
    Multiplied(51, 34, "00001010", "01001110",
      ["00000000", "00001010", "00010100", "00101000",
       "01011010", "10111110", "01101011", "11010110"]);
  }

  lemma Steps85()
    ensures Step("00001010", '0', "00000000", "00000000")
    ensures Step("00001010", '1', "00000000", "00001010")
    ensures Step("00001010", '0', "00001010", "00010100")
    ensures Step("00001010", '0', "00010100", "00101000")
    ensures Step("00001010", '1', "00101000", "01011010")
    ensures Step("00001010", '1', "01011010", "10111110")
    ensures Step("00001010", '1', "10111110", "01101011")
    ensures Step("00001010", '0', "01101011", "11010110")
  {
  }

  lemma Power170()
    ensures Root(170) == Bits("11010111")
  {
    hide Pow, Step;
    Power85();
    Steps170();
    Multiplied(85, 85, "11010110", "11010110",
      ["11010110", "01100111", "11001110", "01010111",
       "10101110", "10010111", "11100101", "11010111"]);
  }

  lemma Steps170()
    ensures Step("11010110", '1', "00000000", "11010110")
    ensures Step("11010110", '1', "11010110", "01100111")
    ensures Step("11010110", '0', "01100111", "11001110")
    ensures Step("11010110", '1', "11001110", "01010111")
    ensures Step("11010110", '0', "01010111", "10101110")
    ensures Step("11010110", '1', "10101110", "10010111")
    ensures Step("11010110", '1', "10010111", "11100101")
    ensures Step("11010110", '0', "11100101", "11010111")
  {
  }

  lemma Power255()
    ensures Root(255) == Bits("00000001")
  {
    hide Pow, Step;
    Power170();
    Power85();
    Steps255();
    Multiplied(170, 85, "11010111", "11010110",
      ["11010111", "01100100", "11001000", "01011010",
       "10110100", "10100010", "10001110", "00000001"]);
  }

  lemma Steps255()
    ensures Step("11010111", '1', "00000000", "11010111")
    ensures Step("11010111", '1', "11010111", "01100100")
    ensures Step("11010111", '0', "01100100", "11001000")
    ensures Step("11010111", '1', "11001000", "01011010")
    ensures Step("11010111", '0', "01011010", "10110100")
    ensures Step("11010111", '1', "10110100", "10100010")
    ensures Step("11010111", '1', "10100010", "10001110")
    ensures Step("11010111", '0', "10001110", "00000001")
  {
  }

  // ---- distinct roots -----------------------------------------------------------

  lemma SomePowers()
    ensures Root(15) != ONE && Root(51) != ONE && Root(85) != ONE && Root(255) == ONE
  {
    Power15();
    Power51();
    Power85();
    Power255();
    hide Pow;
    assert Bits("00000001") == ONE;
    assert Root(15)[2] && Root(51)[4] && Root(85)[0];
  }

  /** Only multiples of 255 give the power 1. */
  lemma PowerNotOne(d: nat)
    requires 0 < d < 255
    ensures Root(d) != ONE
  {
    hide Pow, Root;
    SomePowers();
    if Root(d) == ONE {
      if d % 3 != 0 {
        Narrow(d, 3, 85);
      } else if d % 5 != 0 {
        Narrow(d, 5, 51);
      } else {
        NotAll(d);
        Narrow(d, 17, 15);
      }
    }
  }

  lemma NotAll(d: nat)
    requires 0 < d < 255 && d % 3 == 0 && d % 5 == 0
    ensures d % 17 != 0
  {
    assert d % 15 == 0;
    var q := d / 15;
    assert q < 17 && d == 15 * q;
  }

  /** Root(e) has a prime order p, and the power d of it is 1. */
  lemma Narrow(d: nat, p: nat, e: nat)
    requires p in {3, 5, 17} && e * p == 255 && d % p != 0
    requires Root(255) == ONE && Root(d) == ONE
    ensures Root(e) == ONE
  {
    hide Pow;
    var w := Root(e);
    PowOfPow(TWO, e, p);
    PowOfPow(TWO, e, d);
    PowOfPow(TWO, d, e);
    PowOfOne(e);
    assert e * d == d * e;
    PowRest(w, d / p, p, d % p);
    assert d == d / p * p + d % p;
    OnlyOne(w, p, d % p);
  }

  /** The first 255 powers of 2 are distinct. */
  lemma RootsDistinct(i: nat, j: nat)
    requires i < j < 255
    ensures Root(i) != Root(j)
  {
    hide Pow, Mul;
    if Root(i) == Root(j) {
      var d := j - i;
      PowAdd(TWO, 255 - i, i);
      PowAdd(TWO, 255 - i, j);
      PowAdd(TWO, d, 255);
      Power255();
      assert Bits("00000001") == ONE;
      MulOne(Root(d));
      PowerNotOne(d);
    }
  }
}
