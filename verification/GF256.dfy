/**
 * The field GF(256) with the reduction polynomial 0x11D, as the QR encoder of
 * the dashboard page multiplies in it.  Addition is exclusive or.
 */
module GF256 {

  /** A number from 0 to 255 by its bits, most significant bit first. */
  type Byte = s: seq<bool> | |s| == 8 witness [false, false, false, false, false, false, false, false]

  const ZERO: Byte := [false, false, false, false, false, false, false, false]
  const ONE: Byte := [false, false, false, false, false, false, false, true]
  const TWO: Byte := [false, false, false, false, false, false, true, false]

  /** Bits written as a string of the characters 0 and 1. */
  function Bits(s: string): (b: seq<bool>)
    ensures |b| == |s|
  {
    seq(|s|, i requires 0 <= i < |s| => s[i] == '1')
  }

  function Xor(a: Byte, b: Byte): Byte {
    seq(8, i requires 0 <= i < 8 => a[i] != b[i])
  }

  function When(c: bool, a: Byte): Byte {
    if c then a else ZERO
  }

  /**
   * Multiplication by the field element 2: shift left, and when a ninth bit comes
   * out, exclusive or with 0x11D, which clears it and flips the bits of 0x1D.
   */
  function Double(a: Byte): Byte {
    seq(8, i requires 0 <= i < 8 => (i < 7 && a[i + 1]) != (i in {3, 4, 5, 7} && a[0]))
  }

  /** The product of a with the polynomial whose coefficients, highest first, are s. */
  function Horner(a: Byte, s: seq<bool>): Byte {
    if |s| == 0 then ZERO
    else Xor(Double(Horner(a, s[..|s| - 1])), When(s[|s| - 1], a))
  }

  function Mul(a: Byte, b: Byte): Byte {
    Horner(a, b)
  }

  /** The multiplication loop over the bits of b, the most significant one first. */
  method MulLoop(a: Byte, b: Byte) returns (r: Byte)
    ensures r == Mul(a, b)
  {
    r := ZERO;
    for i := 8 downto 0
      invariant r == Horner(a, b[..8 - i])
    {
      r := Double(r);
      assert b[..8 - i][..7 - i] == b[..7 - i];
      r := Xor(r, When(b[7 - i], a));
    }
    assert b[..8] == b;
  }

  // ---- exclusive or -----------------------------------------------------------

  lemma XorLaws(a: Byte, b: Byte)
    ensures Xor(a, b) == Xor(b, a)
    ensures Xor(a, a) == ZERO && Xor(a, ZERO) == a == Xor(ZERO, a)
  {
  }

  lemma XorAssociates(a: Byte, b: Byte, c: Byte)
    ensures Xor(Xor(a, b), c) == Xor(a, Xor(b, c))
  {
  }

  lemma XorShuffle(p: Byte, q: Byte, u: Byte, v: Byte)
    ensures Xor(Xor(p, q), Xor(u, v)) == Xor(Xor(p, u), Xor(q, v))
  {
  }

  lemma DoubleXor(a: Byte, b: Byte)
    ensures Double(Xor(a, b)) == Xor(Double(a), Double(b))
  {
  }

  lemma WhenXor(c: bool, d: bool, a: Byte, b: Byte)
    ensures When(c, Xor(a, b)) == Xor(When(c, a), When(c, b))
    ensures When(c != d, a) == Xor(When(c, a), When(d, a))
    ensures Double(When(c, a)) == When(c, Double(a))
  {
  }

  lemma {:induction false} HornerXorLeft(a: Byte, b: Byte, s: seq<bool>)
    ensures Horner(Xor(a, b), s) == Xor(Horner(a, s), Horner(b, s))
  {
    if |s| > 0 {
      hide Xor, Double, When;
      var t, c := s[..|s| - 1], s[|s| - 1];
      HornerXorLeft(a, b, t);
      DoubleXor(Horner(a, t), Horner(b, t));
      XorShuffle(Double(Horner(a, t)), Double(Horner(b, t)), When(c, a), When(c, b));
      WhenXor(c, c, a, b);
    }
  }

  lemma {:induction false} HornerXorRight(a: Byte, s: seq<bool>, t: seq<bool>, u: seq<bool>)
    requires |s| == |t| == |u| && forall i :: 0 <= i < |s| ==> (u[i] <==> (s[i] != t[i]))
    ensures Horner(a, u) == Xor(Horner(a, s), Horner(a, t))
  {
    if |s| > 0 {
      hide Xor, Double, When;
      var n := |s| - 1;
      HornerXorRight(a, s[..n], t[..n], u[..n]);
      DoubleXor(Horner(a, s[..n]), Horner(a, t[..n]));
      XorShuffle(Double(Horner(a, s[..n])), Double(Horner(a, t[..n])), When(s[n], a), When(t[n], a));
      WhenXor(s[n], t[n], a, a);
    }
  }

  lemma MulDistributes(a: Byte, b: Byte, c: Byte)
    ensures Mul(Xor(a, b), c) == Xor(Mul(a, c), Mul(b, c))
    ensures Mul(c, Xor(a, b)) == Xor(Mul(c, a), Mul(c, b))
  {
    hide Horner;
    HornerXorLeft(a, b, c);
    HornerXorRight(c, a, b, Xor(a, b));
  }

  // ---- the multiplicative laws --------------------------------------------------

  lemma MulZero(a: Byte)
    ensures Mul(ZERO, a) == ZERO && Mul(a, ZERO) == ZERO
  {
    hide Mul, Xor;
    XorLaws(ZERO, ZERO);
    MulDistributes(ZERO, ZERO, a);
    XorLaws(Mul(ZERO, a), Mul(ZERO, a));
    XorLaws(Mul(a, ZERO), Mul(a, ZERO));
  }

  lemma {:induction false} HornerDouble(a: Byte, s: seq<bool>)
    ensures Horner(Double(a), s) == Double(Horner(a, s))
  {
    if |s| > 0 {
      hide Xor, Double, When;
      var t, c := s[..|s| - 1], s[|s| - 1];
      HornerDouble(a, t);
      DoubleXor(Double(Horner(a, t)), When(c, a));
      WhenXor(c, c, a, a);
    } else {
      assert Double(ZERO) == ZERO;
    }
  }

  lemma {:induction false} MulHorner(b: Byte, s: seq<bool>, a: Byte)
    ensures Mul(Horner(b, s), a) == Horner(Mul(b, a), s)
  {
    MulZero(a);
    if |s| > 0 {
      hide Xor, Double;
      var t, c := s[..|s| - 1], s[|s| - 1];
      MulHorner(b, t, a);
      MulDistributes(Double(Horner(b, t)), When(c, b), a);
      HornerDouble(Horner(b, t), a);
    }
  }

  /** A byte is the value of its own bits at 2: no reduction takes place. */
  lemma {:induction false} HornerOne(s: seq<bool>)
    requires |s| <= 8
    ensures Horner(ONE, s) == seq(8 - |s|, i => false) + s
  {
    hide Double, Horner;
    if |s| == 0 {
      HornerNothing(ONE, s);
    } else {
      var t := s[..|s| - 1];
      HornerOne(t);
      HornerLast(ONE, s);
      ShiftIn(t, s[|s| - 1]);
      assert t + [s[|s| - 1]] == s;
    }
  }

  lemma HornerNothing(a: Byte, s: seq<bool>)
    requires |s| == 0
    ensures Horner(a, s) == ZERO
  {
  }

  lemma HornerLast(a: Byte, s: seq<bool>)
    requires |s| > 0
    ensures Horner(a, s) == Xor(Double(Horner(a, s[..|s| - 1])), When(s[|s| - 1], a))
  {
  }

  /** Doubling a value that leaves room, plus one bit, shifts the bit in. */
  lemma ShiftIn(t: seq<bool>, b: bool)
    requires |t| < 8
    ensures Xor(Double(seq(8 - |t|, i => false) + t), When(b, ONE)) == seq(7 - |t|, i => false) + (t + [b])
  {
    var p := seq(8 - |t|, i => false) + t;
    assert Double(p) == p[1..] + [false];
  }

  lemma {:induction false} HornerFalse(a: Byte, s: seq<bool>)
    requires forall i :: 0 <= i < |s| ==> !s[i]
    ensures Horner(a, s) == ZERO
  {
    if |s| > 0 {
      HornerFalse(a, s[..|s| - 1]);
    }
  }

  lemma MulOne(a: Byte)
    ensures Mul(ONE, a) == a && Mul(a, ONE) == a
  {
    HornerOne(a);
    HornerFalse(a, ONE[..7]);
  }

  lemma MulTwo(a: Byte)
    ensures Mul(a, TWO) == Double(a)
  {
    HornerFalse(a, TWO[..6]);
    assert TWO[..7][..6] == TWO[..6];
    assert Horner(a, TWO[..7]) == a;
  }

  lemma MulCommutes(a: Byte, b: Byte)
    ensures Mul(a, b) == Mul(b, a)
  {
    MulOne(a);
    MulOne(b);
    MulHorner(ONE, b, a);
  }

  lemma MulAssociates(a: Byte, b: Byte, c: Byte)
    ensures Mul(Mul(a, b), c) == Mul(a, Mul(b, c))
  {
    MulHorner(a, b, c);
    MulHorner(c, b, a);
    MulCommutes(a, c);
    MulCommutes(Mul(c, b), a);
    MulCommutes(c, b);
  }
}
