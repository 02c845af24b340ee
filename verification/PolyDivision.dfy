/**
 * Multiplication of polynomials over GF(256), and the check bytes as the one
 * remainder of the division by the product of the factors (x - 2^i).
 */
module PolyDivision {
  import opened GF256
  import opened ReedSolomon

  /** The product of two polynomials, coefficient by coefficient of the first. */
  function Times(q: Poly, g: Poly): (p: Poly)
    requires |g| >= 1
    ensures |p| == |q| + |g| - 1
  {
    if |q| == 0 then seq(|g| - 1, i => ZERO)
    else AddScaled(Times(q[..|q| - 1], g) + [ZERO], g, q[|q| - 1])
  }

  /** p plus c times g, the two aligned at their right ends. */
  function AddScaled(p: Poly, g: Poly, c: Byte): (s: Poly)
    requires |p| >= |g|
    ensures |s| == |p|
  {
    seq(|p|, i requires 0 <= i < |p| => AddEntry(p, g, c, i))
  }

  function AddEntry(p: Poly, g: Poly, c: Byte, i: nat): Byte
    requires |p| >= |g| && i < |p|
  {
    if i < |p| - |g| then p[i] else Xor(p[i], Mul(g[i - (|p| - |g|)], c))
  }

  /** The product of the first n factors (x - 2^i). */
  function Product(n: nat): (p: Poly)
    ensures |p| == n + 1
  {
    if n == 0 then [ONE] else Times([ONE, Root(n - 1)], Product(n - 1))
  }

  // ---- the product evaluates to the product ------------------------------------------

  lemma EvalAddScaled(p: Poly, g: Poly, c: Byte, x: Byte)
    requires |p| >= |g|
    ensures Eval(AddScaled(p, g, c), x) == Xor(Eval(p, x), Mul(Eval(g, x), c))
  {
    hide Mul, Xor, Eval, Pow;
    var k := |p| - |g|;
    var s := AddScaled(p, g, c);
    assert p == p[..k] + p[k..] && s == p[..k] + s[k..];
    EvalConcat(p[..k], p[k..], x);
    EvalConcat(p[..k], s[k..], x);
    EvalSum(p[k..], g, c, s[k..], x);
    XorAssociates(Mul(Eval(p[..k], x), Pow(x, |g|)), Eval(p[k..], x), Mul(Eval(g, x), c));
  }

  lemma EvalShifted(p: Poly, x: Byte)
    ensures Eval(p + [ZERO], x) == Mul(Eval(p, x), x)
  {
    hide Mul, Xor;
    assert (p + [ZERO])[..|p|] == p;
    XorLaws(Mul(Eval(p, x), x), ZERO);
  }

  /** Times is the multiplication of polynomials: values multiply at every point. */
  lemma {:induction false} EvalTimes(q: Poly, g: Poly, x: Byte)
    requires |g| >= 1
    ensures Eval(Times(q, g), x) == Mul(Eval(q, x), Eval(g, x))
  {
    hide Mul, Xor, AddScaled;
    if |q| == 0 {
      EvalZeros(Times(q, g), x);
      MulZero(Eval(g, x));
    } else {
      var rest, c := q[..|q| - 1], q[|q| - 1];
      EvalTimes(rest, g, x);
      EvalAddScaled(Times(rest, g) + [ZERO], g, c, x);
      EvalShifted(Times(rest, g), x);
      MulSwap(Eval(rest, x), Eval(g, x), x);
      MulCommutes(Eval(g, x), c);
      MulDistributes(Mul(Eval(rest, x), x), c, Eval(g, x));
    }
  }

  // ---- the generator is the product -----------------------------------------------------

  lemma TimesLast(q: Poly, c: Byte, g: Poly)
    requires |g| >= 1
    ensures Times(q + [c], g) == AddScaled(Times(q, g) + [ZERO], g, c)
  {
    assert (q + [c])[..|q|] == q;
  }

  lemma TimesEntry(q: Poly, c: Byte, g: Poly, i: nat)
    requires |g| >= 1 && i < |q| + |g|
    ensures Times(q + [c], g)[i] == AddEntry(Times(q, g) + [ZERO], g, c, i)
  {
    hide Times, AddEntry;
    TimesLast(q, c, g);
  }

  lemma TimesNothing(g: Poly, i: nat)
    requires i < |g|
    ensures (Times([], g) + [ZERO])[i] == ZERO
  {
  }

  lemma TimesOne(p: Poly, i: nat)
    requires i < |p|
    ensures Times([ONE], p)[i] == p[i]
  {
    hide Mul, Xor, Times;
    TimesNothing(p, i);
    TimesEntry([], ONE, p, i);
    assert [] + [ONE] == [ONE];
    MulOne(p[i]);
    XorLaws(p[i], ZERO);
  }

  /** One factor more, entry by entry. */
  lemma TimesFactor(root: Byte, p: Poly, i: nat)
    requires |p| >= 1 && i <= |p|
    ensures Times([ONE, root], p)[i] ==
      if i == 0 then p[0] else if i < |p| then Xor(p[i], Mul(p[i - 1], root)) else Mul(p[i - 1], root)
  {
    hide Mul, Xor, Times, AddEntry;
    var t := Times([ONE], p) + [ZERO];
    assert t[i] == if i < |p| then p[i] else ZERO by {
      if i < |p| {
        TimesOne(p, i);
      }
    }
    FactorEntry(t, p, root, i);
    assert [ONE] + [root] == [ONE, root];
    TimesEntry([ONE], root, p, i);
  }

  lemma FactorEntry(t: Poly, p: Poly, root: Byte, i: nat)
    requires |t| == |p| + 1 && |p| >= 1 && i <= |p| && t[i] == if i < |p| then p[i] else ZERO
    ensures AddEntry(t, p, root, i) ==
      if i == 0 then p[0] else if i < |p| then Xor(p[i], Mul(p[i - 1], root)) else Mul(p[i - 1], root)
  {
    hide Mul, Xor;
    if i == |p| {
      XorLaws(Mul(p[i - 1], root), ZERO);
    }
  }

  /** After n factors the array holds their product, zeros on its left; the last factor pushes the leading 1 out. */
  lemma {:induction false} GenIsProduct(ecLen: nat, n: nat)
    requires 0 <= n <= ecLen && ecLen >= 1
    ensures Product(n)[0] == ONE
    ensures n < ecLen ==> GenAfter(ecLen, n) == seq(ecLen - 1 - n, i => ZERO) + Product(n)
    ensures n == ecLen ==> [ONE] + GenAfter(ecLen, n) == Product(n)
  {
    if n > 0 {
      hide Mul, Xor, Times;
      var g, p, root := GenAfter(ecLen, n - 1), Product(n - 1), Root(n - 1);
      var z := ecLen - n;
      GenIsProduct(ecLen, n - 1);
      TimesFactor(root, p, 0);
      forall j | 0 <= j < ecLen
        ensures GenAfter(ecLen, n)[j] == if j + 1 < z then ZERO else Product(n)[j + 1 - z]
      {
        GenEntryShifted(g, p, root, z, j);
      }
    }
  }

  lemma GenEntryShifted(g: Poly, p: Poly, root: Byte, z: nat, j: nat)
    requires |p| >= 1 && g == seq(z, i => ZERO) + p && j < |g|
    ensures GenEntry(g, root, j) == if j + 1 < z then ZERO else Times([ONE, root], p)[j + 1 - z]
  {
    hide Mul, Xor, Times;
    MulZero(root);
    if j + 1 >= z {
      var i := j + 1 - z;
      TimesFactor(root, p, i);
      if i == 0 {
        XorLaws(p[0], ZERO);
      } else if i < |p| {
        XorLaws(p[i], Mul(p[i - 1], root));
      }
    } else {
      XorLaws(ZERO, ZERO);
    }
  }

  // ---- the remainder ----------------------------------------------------------------------

  lemma XorCancels(a: Byte, b: Byte, c: Byte)
    requires Xor(a, b) == Xor(a, c)
    ensures b == c
  {
    hide Xor;
    XorAssociates(a, a, b);
    XorAssociates(a, a, c);
    XorLaws(a, a);
    XorLaws(b, ZERO);
    XorLaws(c, ZERO);
  }

  /** With a leading 1 the first coefficients of a product determine the quotient. */
  lemma {:induction false} TopDetermines(p: Poly, q: Poly, g: Poly)
    requires |g| >= 1 && g[0] == ONE && |p| == |q|
    requires forall i :: 0 <= i < |p| ==> Times(p, g)[i] == Times(q, g)[i]
    ensures p == q
  {
    hide Mul, Xor, Times, AddEntry;
    if |p| > 0 {
      var k := |p| - 1;
      assert p == p[..k] + [p[k]] && q == q[..k] + [q[k]];
      forall i | 0 <= i < k
        ensures Times(p[..k], g)[i] == Times(q[..k], g)[i]
      {
        EarlierEntry(p[..k], p[k], g, i);
        EarlierEntry(q[..k], q[k], g, i);
      }
      TopDetermines(p[..k], q[..k], g);
      LastDetermines(p[..k], p[k], q[k], g);
    }
  }

  /** Coefficients before the last keep their place when the quotient grows. */
  lemma EarlierEntry(p: Poly, c: Byte, g: Poly, i: nat)
    requires |g| >= 1 && i < |p|
    ensures Times(p + [c], g)[i] == Times(p, g)[i]
  {
    hide Mul, Xor, Times, AddEntry;
    TimesEntry(p, c, g, i);
    TopEntry(Times(p, g), g, c, i);
  }

  lemma LastDetermines(p: Poly, c: Byte, d: Byte, g: Poly)
    requires |g| >= 1 && g[0] == ONE && Times(p + [c], g)[|p|] == Times(p + [d], g)[|p|]
    ensures c == d
  {
    hide Mul, Xor, Times, AddEntry;
    TimesEntry(p, c, g, |p|);
    TimesEntry(p, d, g, |p|);
    LastEntry(Times(p, g), g, c, d);
  }

  lemma TopEntry(s: Poly, g: Poly, c: Byte, i: nat)
    requires |g| >= 1 && |s| >= |g| - 1 && i < |s| + 1 - |g|
    ensures AddEntry(s + [ZERO], g, c, i) == s[i]
  {
  }

  lemma LastEntry(s: Poly, g: Poly, c: Byte, d: Byte)
    requires |g| >= 1 && |s| >= |g| - 1 && g[0] == ONE
    requires AddEntry(s + [ZERO], g, c, |s| + 1 - |g|) == AddEntry(s + [ZERO], g, d, |s| + 1 - |g|)
    ensures c == d
  {
    hide Mul, Xor;
    MulOne(c);
    MulOne(d);
    XorCancels((s + [ZERO])[|s| + 1 - |g|], c, d);
  }

  /** The bytes that leave the register are the quotient of the division. */
  function Quotient(msg: seq<Byte>, gen: Poly): (q: Poly)
    requires |gen| >= 1
    ensures |q| == |msg|
  {
    if |msg| == 0 then []
    else Quotient(msg[..|msg| - 1], gen) + [Xor(msg[|msg| - 1], RsAfter(msg[..|msg| - 1], gen)[0])]
  }

  lemma {:induction false} QuotientTimes(msg: seq<Byte>, gen: Poly)
    requires |gen| >= 1
    ensures Times(Quotient(msg, gen), [ONE] + gen) == msg + RsAfter(msg, gen)
  {
    hide Mul, Xor, Times, Quotient, RsAfter;
    if |msg| == 0 {
      QuotientNothing(gen);
      assert msg == [];
    } else {
      var m, b := msg[..|msg| - 1], msg[|msg| - 1];
      QuotientTimes(m, gen);
      QuotientTimesPush(m, b, gen);
      assert msg == m + [b];
    }
  }

  lemma QuotientNothing(gen: Poly)
    requires |gen| >= 1
    ensures Times(Quotient([], gen), [ONE] + gen) == [] + RsAfter([], gen)
  {
  }

  lemma QuotientNext(m: seq<Byte>, b: Byte, gen: Poly)
    requires |gen| >= 1
    ensures RsAfter(m + [b], gen) == RsStep(RsAfter(m, gen), gen, b)
    ensures Quotient(m + [b], gen) == Quotient(m, gen) + [Xor(b, RsAfter(m, gen)[0])]
  {
    hide Xor, RsStep;
    assert (m + [b])[..|m|] == m;
  }

  lemma QuotientTimesPush(m: seq<Byte>, b: Byte, gen: Poly)
    requires |gen| >= 1 && Times(Quotient(m, gen), [ONE] + gen) == m + RsAfter(m, gen)
    ensures Times(Quotient(m + [b], gen), [ONE] + gen) == m + [b] + RsAfter(m + [b], gen)
  {
    hide Mul, Xor, Times, Quotient, RsAfter, RsStep, AddScaled;
    QuotientNext(m, b, gen);
    TimesLast(Quotient(m, gen), Xor(b, RsAfter(m, gen)[0]), [ONE] + gen);
    QuotientStep(m, RsAfter(m, gen), gen, b);
  }

  /** One step of the register subtracts a multiple of the generator that turns its first byte into the message's. */
  lemma QuotientStep(m: seq<Byte>, r: Poly, gen: Poly, b: Byte)
    requires |r| == |gen| >= 1
    ensures AddScaled(m + r + [ZERO], [ONE] + gen, Xor(b, r[0])) == m + [b] + RsStep(r, gen, b)
  {
    hide Mul, Xor;
    var f, p := Xor(b, r[0]), m + r + [ZERO];
    MulOne(f);
    XorLaws(b, r[0]);
    XorAssociates(r[0], r[0], b);
    XorLaws(r[0], r[0]);
    XorLaws(b, ZERO);
    forall i | 0 <= i < |p|
      ensures AddEntry(p, [ONE] + gen, f, i) == (m + [b] + RsStep(r, gen, b))[i]
    {
      if i > |m| {
        assert p[i] == (r[1..] + [ZERO])[i - |m| - 1];
      }
    }
  }

  /**
   * The check bytes are the remainder of the message, moved up by their number, divided by the
   * generator: the only ones that make the whole a multiple of the product of the (x - 2^i).
   */
  lemma RsIsTheRemainder(msg: seq<Byte>, ecLen: nat, r: Poly)
    requires ecLen >= 1 && |r| == ecLen
    ensures r == Rs(msg, ecLen) <==> exists q: Poly :: |q| == |msg| && Times(q, Product(ecLen)) == msg + r
  {
    hide Times, Product, GenAfter, RsAfter, Quotient;
    var g := Product(ecLen);
    var q := Quotient(msg, Generator(ecLen));
    GenIsProduct(ecLen, ecLen);
    QuotientTimes(msg, Generator(ecLen));
    assert Times(q, g) == msg + Rs(msg, ecLen);
    if p: Poly :| |p| == |msg| && Times(p, g) == msg + r {
      assert forall i :: 0 <= i < |msg| ==> Times(p, g)[i] == msg[i] == Times(q, g)[i];
      TopDetermines(p, q, g);
      assert (msg + r)[|msg|..] == r;
      assert (msg + Rs(msg, ecLen))[|msg|..] == Rs(msg, ecLen);
    }
  }
}
