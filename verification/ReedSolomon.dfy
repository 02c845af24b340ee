/**
 * Reed-Solomon check bytes (section 7.5.2 of ISO/IEC 18004:2015): the generator
 * polynomial, the remainder loop, and the fact that a message followed by its
 * check bytes vanishes at every root of the generator.
 */
module ReedSolomon {
  import opened GF256

  /** A polynomial by its coefficients, highest power first. */
  type Poly = seq<Byte>

  function Eval(p: Poly, x: Byte): Byte {
    if |p| == 0 then ZERO
    else Xor(Mul(Eval(p[..|p| - 1], x), x), p[|p| - 1])
  }

  function Pow(x: Byte, n: nat): Byte {
    if n == 0 then ONE else Mul(Pow(x, n - 1), x)
  }

  /** The i-th root of the generator, 2 to the power i. */
  function Root(i: nat): Byte {
    Pow(TWO, i)
  }

  /** Does p vanish at the first n roots? */
  predicate Vanishes(p: Poly, n: nat) {
    forall i :: 0 <= i < n ==> Eval(p, Root(i)) == ZERO
  }

  // ---- what the loops compute ---------------------------------------------------

  /** One factor (x - root), the coefficient that leaves on the left being dropped. */
  function GenStep(g: Poly, root: Byte): (h: Poly)
    ensures |h| == |g|
  {
    seq(|g|, j requires 0 <= j < |g| => GenEntry(g, root, j))
  }

  function GenEntry(g: Poly, root: Byte, j: nat): Byte
    requires j < |g|
  {
    if j + 1 < |g| then Xor(Mul(g[j], root), g[j + 1]) else Mul(g[j], root)
  }

  /** The coefficient array after n factors have been multiplied in. */
  function GenAfter(ecLen: nat, n: nat): (g: Poly)
    requires ecLen >= 1
    ensures |g| == ecLen
  {
    if n == 0 then seq(ecLen - 1, i => ZERO) + [ONE]
    else GenStep(GenAfter(ecLen, n - 1), Root(n - 1))
  }

  /** The generator without its leading coefficient, which is 1. */
  function Generator(ecLen: nat): Poly
    requires ecLen >= 1
  {
    GenAfter(ecLen, ecLen)
  }

  /** One message byte pushed through the shift register r. */
  function RsStep(r: Poly, gen: Poly, b: Byte): (r': Poly)
    requires |r| == |gen| >= 1
    ensures |r'| == |r|
  {
    var f := Xor(b, r[0]);
    seq(|r|, i requires 0 <= i < |r| => Xor((r[1..] + [ZERO])[i], Mul(gen[i], f)))
  }

  function RsAfter(msg: seq<Byte>, gen: Poly): (r: Poly)
    requires |gen| >= 1
    ensures |r| == |gen|
  {
    if |msg| == 0 then seq(|gen|, i => ZERO)
    else RsStep(RsAfter(msg[..|msg| - 1], gen), gen, msg[|msg| - 1])
  }

  function Rs(msg: seq<Byte>, ecLen: nat): (r: Poly)
    requires ecLen >= 1
    ensures |r| == ecLen
  {
    RsAfter(msg, Generator(ecLen))
  }

  // ---- the loops ------------------------------------------------------------------

  method BuildGenerator(ecLen: nat) returns (gen: array<Byte>)
    requires ecLen >= 1
    ensures fresh(gen) && gen[..] == Generator(ecLen)
  {
    hide Mul, Xor, GenAfter, Root;
    gen := new Byte[ecLen](i => ZERO);
    gen[ecLen - 1] := ONE;
    var root := ONE;
    FirstFactor(ecLen, gen[..]);
    for i := 0 to ecLen
      invariant root == Root(i)
      invariant gen[..] == GenAfter(ecLen, i)
    {
      ghost var g := gen[..];
      for j := 0 to ecLen
        invariant forall k :: 0 <= k < j ==> gen[k] == GenEntry(g, root, k)
        invariant forall k :: j <= k < ecLen ==> gen[k] == g[k]
      {
        gen[j] := MulLoop(gen[j], root);
        if j + 1 < ecLen {
          gen[j] := Xor(gen[j], gen[j + 1]);
        }
      }
      NextFactor(g, gen[..], root, ecLen, i);
      root := MulLoop(root, TWO);
    }
  }

  lemma FirstFactor(ecLen: nat, g: Poly)
    requires ecLen >= 1 && |g| == ecLen && g[ecLen - 1] == ONE
    requires forall i :: 0 <= i < ecLen - 1 ==> g[i] == ZERO
    ensures g == GenAfter(ecLen, 0) && Root(0) == ONE
  {
  }

  lemma NextFactor(g: Poly, h: Poly, root: Byte, ecLen: nat, n: nat)
    requires ecLen >= 1 && g == GenAfter(ecLen, n) && root == Root(n) && |h| == ecLen
    requires forall k :: 0 <= k < ecLen ==> h[k] == GenEntry(g, root, k)
    ensures h == GenAfter(ecLen, n + 1) && Root(n + 1) == Mul(root, TWO)
  {
    hide Mul, GenEntry;
  }

  method RemainderLoop(msg: seq<Byte>, gen: array<Byte>) returns (r: Poly)
    requires gen.Length >= 1
    ensures r == RsAfter(msg, gen[..])
  {
    r := seq(gen.Length, i => ZERO);
    for k := 0 to |msg|
      invariant r == RsAfter(msg[..k], gen[..])
    {
      ghost var r0 := r;
      var b := msg[k];
      var f := Xor(b, r[0]);
      r := r[1..] + [ZERO];
      ghost var shifted := r;
      for i := 0 to |r|
        invariant |r| == gen.Length
        invariant forall j :: 0 <= j < i ==> r[j] == Xor(shifted[j], Mul(gen[j], f))
        invariant forall j :: i <= j < |r| ==> r[j] == shifted[j]
      {
        var p := MulLoop(gen[i], f);
        r := r[i := Xor(r[i], p)];
      }
      assert r == RsStep(r0, gen[..], b);
      assert msg[..k + 1][..k] == msg[..k];
    }
    assert msg[..|msg|] == msg;
  }

  // ---- evaluation -----------------------------------------------------------------

  /** x^n times a sum, regrouped: the shape of one Horner step. */
  lemma MulSumTimes(a: Byte, b: Byte, c: Byte, x: Byte)
    ensures Mul(Xor(Mul(a, b), c), x) == Xor(Mul(a, Mul(b, x)), Mul(c, x))
  {
    hide Mul, Xor;
    MulDistributes(Mul(a, b), c, x);
    MulAssociates(a, b, x);
  }

  lemma {:induction false} EvalConcat(p: Poly, q: Poly, x: Byte)
    ensures Eval(p + q, x) == Xor(Mul(Eval(p, x), Pow(x, |q|)), Eval(q, x))
  {
    hide Mul, Xor;
    if |q| == 0 {
      assert p + q == p;
      MulOne(Eval(p, x));
      XorLaws(Eval(p, x), ZERO);
    } else {
      var n := |q| - 1;
      EvalConcat(p, q[..n], x);
      assert (p + q)[..|p| + n] == p + q[..n];
      MulSumTimes(Eval(p, x), Pow(x, n), Eval(q[..n], x), x);
      XorAssociates(Mul(Eval(p, x), Pow(x, |q|)), Mul(Eval(q[..n], x), x), q[n]);
    }
  }

  /** t is p plus c times q, coefficient by coefficient. */
  predicate IsSum(p: Poly, q: Poly, c: Byte, t: Poly) {
    |p| == |q| == |t| && forall i :: 0 <= i < |p| ==> t[i] == Xor(p[i], Mul(q[i], c))
  }

  lemma {:induction false} EvalSum(p: Poly, q: Poly, c: Byte, t: Poly, x: Byte)
    requires IsSum(p, q, c, t)
    ensures Eval(t, x) == Xor(Eval(p, x), Mul(Eval(q, x), c))
  {
    hide Mul, Xor;
    if |p| == 0 {
      MulZero(c);
      XorLaws(ZERO, ZERO);
    } else {
      var n := |p| - 1;
      var ep, eq := Eval(p[..n], x), Eval(q[..n], x);
      EvalSum(p[..n], q[..n], c, t[..n], x);
      MulDistributes(ep, Mul(eq, c), x);
      MulSwap(eq, c, x);
      MulDistributes(Mul(eq, x), q[n], c);
      XorShuffle(Mul(ep, x), Mul(Mul(eq, x), c), p[n], Mul(q[n], c));
    }
  }

  lemma MulSwap(a: Byte, b: Byte, c: Byte)
    ensures Mul(Mul(a, b), c) == Mul(Mul(a, c), b)
  {
    hide Mul, Xor;
    MulAssociates(a, b, c);
    MulCommutes(b, c);
    MulAssociates(a, c, b);
  }

  /** Shifting the register left multiplies its value by x, up to the byte that leaves. */
  lemma EvalShift(r: Poly, x: Byte)
    requires |r| >= 1
    ensures Xor(Eval(r[1..] + [ZERO], x), Mul(r[0], Pow(x, |r|))) == Mul(Eval(r, x), x)
  {
    hide Mul, Xor;
    var e, n := Eval(r[1..], x), |r| - 1;
    EvalConcat([r[0]], r[1..], x);
    assert [r[0]] + r[1..] == r;
    EvalSingle(r[0], x);
    MulSumTimes(r[0], Pow(x, n), e, x);
    assert (r[1..] + [ZERO])[..n] == r[1..];
    XorLaws(Mul(e, x), ZERO);
    XorLaws(Mul(e, x), Mul(r[0], Pow(x, |r|)));
  }

  lemma EvalSingle(b: Byte, x: Byte)
    ensures Eval([b], x) == b
  {
    MulZero(x);
    XorLaws(b, ZERO);
  }

  // ---- the remainder --------------------------------------------------------------

  /** One step of the register at a point where the generator vanishes. */
  lemma RsStepValue(r: Poly, gen: Poly, b: Byte, x: Byte)
    requires |r| == |gen| >= 1
    requires Eval(gen, x) == Pow(x, |gen|)
    ensures Eval(RsStep(r, gen, b), x) == Xor(Mul(Eval(r, x), x), Mul(b, Pow(x, |gen|)))
  {
    hide Mul, Xor, Eval;
    var f, top, shifted := Xor(b, r[0]), Pow(x, |gen|), r[1..] + [ZERO];
    EvalSum(shifted, gen, f, RsStep(r, gen, b), x);
    MulCommutes(top, f);
    MulDistributes(b, r[0], top);
    EvalShift(r, x);
    var e, u, v := Eval(shifted, x), Mul(b, top), Mul(r[0], top);
    XorLaws(u, v);
    XorAssociates(e, v, u);
  }

  /** The register holds the message, moved up by its own length, modulo the generator. */
  lemma {:induction false} RsValue(msg: seq<Byte>, gen: Poly, x: Byte)
    requires |gen| >= 1
    requires Eval(gen, x) == Pow(x, |gen|)
    ensures Eval(RsAfter(msg, gen), x) == Mul(Eval(msg, x), Pow(x, |gen|))
  {
    hide Mul, Xor, RsStep;
    var top := Pow(x, |gen|);
    MulZero(top);
    if |msg| == 0 {
      EvalZeros(RsAfter(msg, gen), x);
    } else {
      var m, b := msg[..|msg| - 1], msg[|msg| - 1];
      RsValue(m, gen, x);
      RsStepValue(RsAfter(m, gen), gen, b, x);
      MulSwap(Eval(m, x), top, x);
      MulDistributes(Mul(Eval(m, x), x), b, top);
    }
  }

  lemma {:induction false} EvalZeros(p: Poly, x: Byte)
    requires forall i :: 0 <= i < |p| ==> p[i] == ZERO
    ensures Eval(p, x) == ZERO
  {
    if |p| > 0 {
      EvalZeros(p[..|p| - 1], x);
      MulZero(x);
      XorLaws(ZERO, ZERO);
    }
  }

  // ---- the generator --------------------------------------------------------------

  /** Before the last factor the leading 1 stands at index ecLen-1-n, with zeros on its left. */
  lemma {:induction false} GenLeading(ecLen: nat, n: nat)
    requires n < ecLen
    ensures GenAfter(ecLen, n)[ecLen - 1 - n] == ONE
    ensures forall i :: 0 <= i < ecLen - 1 - n ==> GenAfter(ecLen, n)[i] == ZERO
  {
    hide Mul, Xor, Root;
    if n > 0 {
      GenLeading(ecLen, n - 1);
      MulZero(Root(n - 1));
      XorLaws(ONE, ZERO);
      XorLaws(ZERO, ZERO);
    }
  }

  lemma GenStepValue(g: Poly, root: Byte, x: Byte)
    requires |g| >= 1
    ensures Eval(GenStep(g, root), x) == Xor(Mul(Eval(g, x), Xor(x, root)), Mul(g[0], Pow(x, |g|)))
  {
    hide Mul, Xor, Eval, Pow;
    var shifted, top := g[1..] + [ZERO], Mul(g[0], Pow(x, |g|));
    forall j | 0 <= j < |g|
      ensures GenStep(g, root)[j] == Xor(shifted[j], Mul(g[j], root))
    {
      XorLaws(shifted[j], Mul(g[j], root));
      XorLaws(Mul(g[j], root), ZERO);
    }
    EvalSum(shifted, g, root, GenStep(g, root), x);
    EvalShift(g, x);
    MulDistributes(x, root, Eval(g, x));
    var e, u := Eval(shifted, x), Mul(Eval(g, x), root);
    XorAssociates(e, top, u);
    XorLaws(top, u);
    XorAssociates(e, u, top);
    XorAssociates(Xor(e, u), top, top);
    XorLaws(top, top);
    XorLaws(Xor(e, u), ZERO);
  }

  /** After n < ecLen factors the product vanishes at the first n roots. */
  lemma {:induction false} GenVanishes(ecLen: nat, n: nat, i: nat)
    requires i < n < ecLen
    ensures Eval(GenAfter(ecLen, n), Root(i)) == ZERO
  {
    hide Mul, Xor, Eval, Pow;
    var g, x, root := GenAfter(ecLen, n - 1), Root(i), Root(n - 1);
    GenStepValue(g, root, x);
    GenLeading(ecLen, n - 1);
    MulZero(Pow(x, ecLen));
    MulZero(Xor(x, root));
    MulZero(Eval(g, x));
    XorLaws(x, root);
    XorLaws(ZERO, ZERO);
    if i < n - 1 {
      GenVanishes(ecLen, n - 1, i);
    }
  }

  /** At each of its roots the generator's lower part equals the leading power. */
  lemma GeneratorRoots(ecLen: nat, i: nat)
    requires i < ecLen
    ensures Eval(Generator(ecLen), Root(i)) == Pow(Root(i), ecLen)
  {
    hide Mul, Xor, Eval, Pow;
    var g, x, root := GenAfter(ecLen, ecLen - 1), Root(i), Root(ecLen - 1);
    GenStepValue(g, root, x);
    GenLeading(ecLen, ecLen - 1);
    MulOne(Pow(x, ecLen));
    MulZero(Xor(x, root));
    MulZero(Eval(g, x));
    XorLaws(x, root);
    XorLaws(Pow(x, ecLen), ZERO);
    if i < ecLen - 1 {
      GenVanishes(ecLen, ecLen - 1, i);
    }
  }

  /** A message followed by its check bytes vanishes at every root of the generator. */
  lemma CodewordVanishes(msg: seq<Byte>, ecLen: nat)
    requires ecLen >= 1
    ensures Vanishes(msg + Rs(msg, ecLen), ecLen)
  {
    hide Mul, Xor, Eval, Pow, GenAfter;
    forall i | 0 <= i < ecLen
      ensures Eval(msg + Rs(msg, ecLen), Root(i)) == ZERO
    {
      GeneratorRoots(ecLen, i);
      RsValue(msg, Generator(ecLen), Root(i));
      EvalConcat(msg, Rs(msg, ecLen), Root(i));
      XorLaws(Mul(Eval(msg, Root(i)), Pow(Root(i), ecLen)), ZERO);
    }
  }
}
