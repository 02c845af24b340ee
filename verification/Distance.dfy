/**
 * How far apart Reed-Solomon blocks are: two different ones of one length differ in
 * more places than they have check bytes, so a reader can correct half as many errors.
 */
module Distance {
  import opened Arithmetic
  import opened GF256
  import opened ReedSolomon
  import opened Powers
  import opened QrStream

  // ---- every byte but 0 is a power of 2 --------------------------------------------------

  lemma {:induction false} BitsNatBounded(s: seq<bool>)
    ensures BitsNat(s) < Pow2(|s|)
  {
    if |s| > 0 {
      BitsNatBounded(s[..|s| - 1]);
    }
  }

  lemma {:induction false} BitsNatInjective(s: seq<bool>, t: seq<bool>)
    requires |s| == |t| && BitsNat(s) == BitsNat(t)
    ensures s == t
  {
    if |s| > 0 {
      BitsNatInjective(s[..|s| - 1], t[..|t| - 1]);
      assert s == s[..|s| - 1] + [s[|s| - 1]] && t == t[..|t| - 1] + [t[|t| - 1]];
    }
  }

  lemma RootInverse(i: nat)
    requires i < 255
    ensures Mul(Root(255 - i), Root(i)) == ONE && Root(i) != ZERO
  {
    hide Mul, Pow;
    PowAdd(TWO, 255 - i, i);
    SomePowers();
    MulZero(Root(255 - i));
  }

  /** The numbers of the first n powers. */
  ghost function Numbers(n: nat): set<nat> {
    set i | 0 <= i < n :: BitsNat(Root(i))
  }

  lemma {:induction false} NumbersDistinct(n: nat)
    requires n <= 255
    ensures |Numbers(n)| == n && forall v :: v in Numbers(n) ==> 1 <= v < 256
  {
    hide Pow, BitsNat, Root;
    if n == 0 {
      assert Numbers(0) == {};
    } else {
      NumbersDistinct(n - 1);
      var v := BitsNat(Root(n - 1));
      forall i | 0 <= i < n - 1
        ensures BitsNat(Root(i)) != v
      {
        RootsDistinct(i, n - 1);
        if BitsNat(Root(i)) == v {
          BitsNatInjective(Root(i), Root(n - 1));
        }
      }
      assert Numbers(n) == Numbers(n - 1) + {v};
      NumberInRange(n - 1);
    }
  }

  lemma NumberInRange(i: nat)
    requires i < 255
    ensures 1 <= BitsNat(Root(i)) < 256
  {
    hide Pow, BitsNat, Root;
    RootInverse(i);
    BitsNatBounded(Root(i));
    assert Pow2(8) == 256;
    ZeroNumber();
    if BitsNat(Root(i)) == 0 {
      BitsNatInjective(Root(i), ZERO);
    }
  }

  lemma ZeroNumber()
    ensures BitsNat(ZERO) == 0
  {
    LightNumber(ZERO);
  }

  lemma {:induction false} LightNumber(s: seq<bool>)
    requires forall i :: 0 <= i < |s| ==> !s[i]
    ensures BitsNat(s) == 0
  {
    if |s| > 0 {
      LightNumber(s[..|s| - 1]);
    }
  }

  ghost function Range(n: nat): set<nat> {
    if n == 0 then {} else Range(n - 1) + {n}
  }

  lemma {:induction false} RangeSize(n: nat)
    ensures |Range(n)| == n && forall v :: v in Range(n) <==> 1 <= v <= n
  {
    if n > 0 {
      RangeSize(n - 1);
    }
  }

  lemma SubsetFull(a: set<nat>, b: set<nat>)
    requires a <= b && |a| == |b|
    ensures a == b
  {
    if v :| v in b && v !in a {
      Smaller(a, b - {v});
    }
  }

  lemma {:induction false} Smaller(a: set<nat>, b: set<nat>)
    requires a <= b
    ensures |a| <= |b|
  {
    if a != {} {
      var v :| v in a;
      Smaller(a - {v}, b - {v});
    }
  }

  /** There are 255 bytes but 0, and 255 distinct powers. */
  lemma PowerOf(b: Byte) returns (i: nat)
    requires b != ZERO
    ensures i < 255 && Root(i) == b
  {
    hide Pow, Root, BitsNat;
    NumbersDistinct(255);
    RangeSize(255);
    SubsetFull(Numbers(255), Range(255));
    BitsNatBounded(b);
    assert Pow2(8) == 256;
    if BitsNat(b) == 0 {
      ZeroNumber();
      BitsNatInjective(b, ZERO);
    }
    assert BitsNat(b) in Range(255);
    i :| 0 <= i < 255 && BitsNat(Root(i)) == BitsNat(b);
    BitsNatInjective(Root(i), b);
  }

  /** A product is 0 only when a factor is. */
  lemma NoZeroDivisors(a: Byte, b: Byte)
    requires a != ZERO && b != ZERO
    ensures Mul(a, b) != ZERO
  {
    hide Mul, Pow, Root;
    var i := PowerOf(a);
    RootInverse(i);
    MulAssociates(Root(255 - i), a, b);
    MulOne(b);
    MulZero(Root(255 - i));
  }

  // ---- few coefficients cannot vanish at many powers -----------------------------------------

  /** Each coefficient times the difference between the power at its place and z. */
  function Scale(c: Poly, z: Byte): (d: Poly)
    ensures |d| == |c|
  {
    if |c| == 0 then [] else [Mul(c[0], Xor(Root(|c| - 1), z))] + Scale(c[1..], z)
  }

  /** Number of coefficients that are not 0. */
  function Weight(c: Poly): nat {
    if |c| == 0 then 0 else (if c[0] != ZERO then 1 else 0) + Weight(c[1..])
  }

  lemma EvalFirst(c: Poly, x: Byte)
    requires |c| > 0
    ensures Eval(c, x) == Xor(Mul(c[0], Pow(x, |c| - 1)), Eval(c[1..], x))
  {
    hide Mul, Xor, Pow, Eval;
    assert c == [c[0]] + c[1..];
    EvalConcat([c[0]], c[1..], x);
    EvalSingle(c[0], x);
  }

  /** One coefficient of the scaled polynomial at the i-th power. */
  lemma ScaledTerm(a: Byte, m: nat, z: Byte, i: nat)
    ensures Mul(Mul(a, Xor(Root(m), z)), Pow(Root(i), m)) ==
      Xor(Mul(a, Pow(Root(i + 1), m)), Mul(z, Mul(a, Pow(Root(i), m))))
  {
    hide Mul, Xor, Pow;
    var x, p := Root(m), Pow(Root(i), m);
    PowOfPow(TWO, i, m);
    PowOfPow(TWO, i + 1, m);
    PowAdd(TWO, m, i * m);
    assert m + i * m == (i + 1) * m;
    MulDistributes(x, z, a);
    MulDistributes(Mul(a, x), Mul(a, z), p);
    MulAssociates(a, x, p);
    MulCommutes(a, z);
    MulAssociates(z, a, p);
  }

  lemma {:induction false} ScaledValue(c: Poly, z: Byte, i: nat)
    ensures Eval(Scale(c, z), Root(i)) == Xor(Eval(c, Root(i + 1)), Mul(z, Eval(c, Root(i))))
  {
    hide Mul, Xor, Pow, Root, Eval;
    if |c| == 0 {
      EvalNothing(Root(i));
      EvalNothing(Root(i + 1));
      MulZero(z);
      XorLaws(ZERO, ZERO);
    } else {
      var m := |c| - 1;
      ScaledValue(c[1..], z, i);
      EvalFirst(Scale(c, z), Root(i));
      EvalFirst(c, Root(i));
      EvalFirst(c, Root(i + 1));
      ScaledTerm(c[0], m, z, i);
      assert Scale(c, z)[1..] == Scale(c[1..], z);
      var u, v := Mul(c[0], Pow(Root(i + 1), m)), Mul(c[0], Pow(Root(i), m));
      MulDistributes(v, Eval(c[1..], Root(i)), z);
      XorShuffle(u, Mul(z, v), Eval(c[1..], Root(i + 1)), Mul(z, Eval(c[1..], Root(i))));
    }
  }

  lemma EvalNothing(x: Byte)
    ensures Eval([], x) == ZERO
  {
  }

  lemma XorZero(a: Byte, b: Byte)
    ensures Xor(a, b) == ZERO <==> a == b
  {
    if Xor(a, b) == ZERO {
      assert forall i :: 0 <= i < 8 ==> Xor(a, b)[i] == (a[i] != b[i]);
      assert forall i :: 0 <= i < 8 ==> !ZERO[i];
    }
  }

  /** Scaling with the power at place k takes exactly that coefficient out. */
  lemma {:induction false} ScaledWeight(c: Poly, k: nat)
    requires k < |c| <= 255 && c[k] != ZERO
    ensures Weight(Scale(c, Root(|c| - 1 - k))) == Weight(c) - 1
  {
    hide Mul, Xor, Pow, Root;
    var z := Root(|c| - 1 - k);
    XorZero(Root(|c| - 1), z);
    MulZero(c[0]);
    MulZero(Xor(Root(|c| - 1), z));
    assert Scale(c, z)[1..] == Scale(c[1..], z);
    if k == 0 {
      SameWeight(c[1..], |c| - 1);
    } else {
      RootsDistinct(|c| - 1 - k, |c| - 1);
      if c[0] != ZERO {
        NoZeroDivisors(c[0], Xor(Root(|c| - 1), z));
      }
      ScaledWeight(c[1..], k - 1);
    }
  }

  lemma {:induction false} SameWeight(c: Poly, n: nat)
    requires |c| <= n < 255
    ensures Weight(Scale(c, Root(n))) == Weight(c)
  {
    hide Mul, Xor, Pow, Root;
    if |c| > 0 {
      XorZero(Root(|c| - 1), Root(n));
      RootsDistinct(|c| - 1, n);
      MulZero(Xor(Root(|c| - 1), Root(n)));
      if c[0] != ZERO {
        NoZeroDivisors(c[0], Xor(Root(|c| - 1), Root(n)));
      }
      assert Scale(c, Root(n))[1..] == Scale(c[1..], Root(n));
      SameWeight(c[1..], n);
    }
  }

  lemma {:induction false} FirstNonzero(c: Poly) returns (k: nat)
    requires Weight(c) > 0
    ensures k < |c| && c[k] != ZERO
  {
    if c[0] != ZERO {
      k := 0;
    } else {
      k := FirstNonzero(c[1..]);
      k := k + 1;
    }
  }

  /** At 1 a polynomial is the sum of its coefficients; a single one does not vanish. */
  lemma {:induction false} SingleValue(c: Poly)
    ensures Weight(c) == 0 ==> Eval(c, Root(0)) == ZERO
    ensures Weight(c) == 1 ==> Eval(c, Root(0)) != ZERO
  {
    hide Mul, Xor, Eval, Pow;
    if |c| == 0 {
      EvalNothing(Root(0));
    } else {
      SingleValue(c[1..]);
      EvalFirst(c, Root(0));
      PowOfOne(|c| - 1);
      FirstRoot();
      MulOne(c[0]);
      XorZero(c[0], Eval(c[1..], Root(0)));
      XorLaws(c[0], ZERO);
      XorLaws(Eval(c[1..], Root(0)), ZERO);
    }
  }

  lemma FirstRoot()
    ensures Root(0) == ONE
  {
  }

  /** A polynomial with at most t of at most 255 coefficients not 0 vanishes at the first t powers only if it is 0. */
  lemma {:induction false} TooLight(c: Poly, t: nat)
    requires |c| <= 255 && Vanishes(c, t) && Weight(c) <= t
    ensures Weight(c) == 0
    decreases t
  {
    hide Mul, Xor, Eval, Pow, Root, Scale, Weight;
    if Weight(c) > 0 {
      var k := FirstNonzero(c);
      var z := Root(|c| - 1 - k);
      ScaledWeight(c, k);
      forall i | 0 <= i < t - 1
        ensures Eval(Scale(c, z), Root(i)) == ZERO
      {
        ScaledValue(c, z, i);
        MulZero(z);
        XorLaws(ZERO, ZERO);
      }
      TooLight(Scale(c, z), t - 1);
      SingleValue(c);
    }
  }

  // ---- blocks ------------------------------------------------------------------------------------

  /** In how many places two blocks differ. */
  function Differences(a: seq<Byte>, b: seq<Byte>): nat
    requires |a| == |b|
  {
    if |a| == 0 then 0 else (if a[0] != b[0] then 1 else 0) + Differences(a[1..], b[1..])
  }

  function Difference(a: seq<Byte>, b: seq<Byte>): (d: Poly)
    requires |a| == |b|
    ensures |d| == |a|
  {
    seq(|a|, i requires 0 <= i < |a| => Xor(a[i], b[i]))
  }

  lemma {:induction false} DifferenceWeight(a: seq<Byte>, b: seq<Byte>)
    requires |a| == |b|
    ensures Weight(Difference(a, b)) == Differences(a, b)
    ensures Differences(a, b) == 0 <==> a == b
  {
    hide Xor;
    if |a| > 0 {
      DifferenceWeight(a[1..], b[1..]);
      XorZero(a[0], b[0]);
      assert Difference(a, b)[1..] == Difference(a[1..], b[1..]);
      assert a == [a[0]] + a[1..] && b == [b[0]] + b[1..];
    }
  }

  lemma DifferenceVanishes(a: seq<Byte>, b: seq<Byte>, n: nat)
    requires |a| == |b| && Vanishes(a, n) && Vanishes(b, n)
    ensures Vanishes(Difference(a, b), n)
  {
    hide Mul, Xor, Eval, Root;
    forall k | 0 <= k < |a|
      ensures Mul(b[k], ONE) == b[k]
    {
      MulOne(b[k]);
    }
    forall i | 0 <= i < n
      ensures Eval(Difference(a, b), Root(i)) == ZERO
    {
      EvalSum(a, b, ONE, Difference(a, b), Root(i));
      MulZero(ONE);
      XorLaws(ZERO, ZERO);
    }
  }

  /** Two different blocks of one length differ in more places than they have check bytes. */
  lemma BlocksFarApart(a: seq<Byte>, b: seq<Byte>, ecLen: nat)
    requires |a| == |b| <= 255 && Vanishes(a, ecLen) && Vanishes(b, ecLen) && a != b
    ensures Differences(a, b) > ecLen
  {
    hide Vanishes, Weight, Difference, Differences;
    DifferenceVanishes(a, b, ecLen);
    DifferenceWeight(a, b);
    if Differences(a, b) <= ecLen {
      TooLight(Difference(a, b), ecLen);
    }
  }

  lemma {:induction false} DifferencesTriangle(a: seq<Byte>, r: seq<Byte>, b: seq<Byte>)
    requires |a| == |r| == |b|
    ensures Differences(a, b) <= Differences(r, a) + Differences(r, b)
  {
    if |a| > 0 {
      DifferencesTriangle(a[1..], r[1..], b[1..]);
    }
  }

  /**
   * So what a reader sees tells the block, as long as at most half as many bytes are wrong as
   * there are check bytes: no other block is as near.
   */
  lemma CorrectsHalf(seen: seq<Byte>, a: seq<Byte>, b: seq<Byte>, ecLen: nat)
    requires |seen| == |a| == |b| <= 255 && Vanishes(a, ecLen) && Vanishes(b, ecLen)
    requires 2 * Differences(seen, a) <= ecLen && 2 * Differences(seen, b) <= ecLen
    ensures a == b
  {
    hide Vanishes, Differences;
    DifferencesTriangle(a, seen, b);
    if a != b {
      BlocksFarApart(a, b, ecLen);
    }
  }
}
