/**
 * The version table and the bit stream of the QR encoder: mode, count, bytes,
 * terminator and padding (sections 7.4.5, 7.4.9 and 7.4.10 of ISO/IEC
 * 18004:2015), with the parser that undoes it.
 */
module QrStream {
  import opened Arithmetic
  import opened Wrappers
  import opened GF256

  /** Total codewords, check codewords per block and number of blocks at level M. */
  datatype Spec = Spec(total: nat, ecLen: nat, blocks: nat)

  ghost predicate IsVersion(v: int) {
    1 <= v <= 10
  }

  function SpecOf(v: nat): Spec
    requires IsVersion(v)
  {
    if v == 1 then Spec(26, 10, 1) else if v == 2 then Spec(44, 16, 1)
    else if v == 3 then Spec(70, 26, 1) else if v == 4 then Spec(100, 18, 2)
    else if v == 5 then Spec(134, 24, 2) else if v == 6 then Spec(172, 16, 4)
    else if v == 7 then Spec(196, 18, 4) else if v == 8 then Spec(242, 22, 4)
    else if v == 9 then Spec(292, 22, 5) else Spec(346, 26, 5)
  }

  /** Number of data codewords of a version. */
  function DataCw(v: nat): (n: nat)
    requires IsVersion(v)
    ensures n == SpecOf(v).total - SpecOf(v).ecLen * SpecOf(v).blocks
    ensures 16 <= n <= 216 && (v < 10 ==> n <= 182)
  {
    SpecOf(v).total - SpecOf(v).ecLen * SpecOf(v).blocks
  }

  function CountBits(v: nat): nat {
    if v < 10 then 8 else 16
  }

  predicate Fits(v: nat, length: nat)
    requires IsVersion(v)
  {
    4 + CountBits(v) + 8 * length <= DataCw(v) * 8
  }

  /** The smallest version that holds length bytes, or 0 when none does. */
  method ChooseVersion(length: nat) returns (ver: nat)
    ensures ver == 0 || IsVersion(ver)
    ensures ver != 0 ==> Fits(ver, length)
    ensures forall v :: IsVersion(v) && (ver == 0 || v < ver) ==> !Fits(v, length)
    ensures ver == 0 <==> length > 213
  {
    ver := 0;
    for v := 1 to 11
      invariant ver == 0
      invariant forall u :: 1 <= u < v ==> !Fits(u, length)
    {
      var header := 4 + if v < 10 then 8 else 16;
      if header + 8 * length <= DataCw(v) * 8 {
        ver := v;
        break;
      }
    }
    assert ver == 0 ==> !Fits(10, length);
  }

  // ---- numbers and bits ---------------------------------------------------------

  /** The n low bits of a number, most significant first. */
  function NatBits(val: nat, n: nat): (s: seq<bool>)
    ensures |s| == n
  {
    if n == 0 then [] else NatBits(val / 2, n - 1) + [val % 2 == 1]
  }

  function BitsNat(s: seq<bool>): nat {
    if |s| == 0 then 0 else 2 * BitsNat(s[..|s| - 1]) + (if s[|s| - 1] then 1 else 0)
  }

  lemma {:induction false} BitsOfNat(val: nat, n: nat)
    requires val < Pow2(n)
    ensures BitsNat(NatBits(val, n)) == val
  {
    if n > 0 {
      BitsOfNat(val / 2, n - 1);
      assert NatBits(val, n)[..n - 1] == NatBits(val / 2, n - 1);
    }
  }

  /** The bits of a list of bytes, in order. */
  function Flatten(bytes: seq<Byte>): (s: seq<bool>)
    ensures |s| == 8 * |bytes|
  {
    if |bytes| == 0 then [] else Flatten(bytes[..|bytes| - 1]) + bytes[|bytes| - 1]
  }

  /** The bytes spelled by a list of bits; fewer than 8 bits at the end are left out. */
  function Unflatten(bits: seq<bool>): (bytes: seq<Byte>)
    ensures |bytes| == |bits| / 8
  {
    seq(|bits| / 8, i requires 0 <= i < |bits| / 8 => bits[8 * i..8 * i + 8])
  }

  lemma FlattenPush(bytes: seq<Byte>, b: Byte)
    ensures Flatten(bytes + [b]) == Flatten(bytes) + b
  {
    assert (bytes + [b])[..|bytes|] == bytes;
  }

  lemma {:induction false} FlattenConcat(a: seq<Byte>, b: seq<Byte>)
    ensures Flatten(a + b) == Flatten(a) + Flatten(b)
  {
    if |b| == 0 {
      assert a + b == a;
    } else {
      var rest, x := b[..|b| - 1], b[|b| - 1];
      FlattenConcat(a, rest);
      FlattenPush(a + rest, x);
      FlattenPush(rest, x);
      hide Flatten;
      assert a + b == (a + rest) + [x] && b == rest + [x];
      assert (Flatten(a) + Flatten(rest)) + x == Flatten(a) + (Flatten(rest) + x);
    }
  }

  lemma {:induction false} FlattenAt(bytes: seq<Byte>, i: nat)
    requires i < |bytes|
    ensures Flatten(bytes)[8 * i..8 * i + 8] == bytes[i]
  {
    if i < |bytes| - 1 {
      FlattenAt(bytes[..|bytes| - 1], i);
    }
  }

  lemma UnflattenFlatten(bytes: seq<Byte>)
    ensures Unflatten(Flatten(bytes)) == bytes
  {
    forall i | 0 <= i < |bytes|
      ensures Unflatten(Flatten(bytes))[i] == bytes[i]
    {
      FlattenAt(bytes, i);
    }
  }

  lemma UnflattenPush(bits: seq<bool>, b: Byte)
    requires |bits| % 8 == 0
    ensures Unflatten(bits + b) == Unflatten(bits) + [b]
  {
    var n := |bits| / 8;
    forall i | 0 <= i <= n
      ensures Unflatten(bits + b)[i] == (Unflatten(bits) + [b])[i]
    {
      assert i < n ==> (bits + b)[8 * i..8 * i + 8] == bits[8 * i..8 * i + 8];
      assert (bits + b)[8 * n..8 * n + 8] == b;
    }
  }

  lemma {:induction false} FlattenUnflatten(bits: seq<bool>)
    requires |bits| % 8 == 0
    ensures Flatten(Unflatten(bits)) == bits
  {
    if |bits| > 0 {
      hide Unflatten;
      var n := |bits| - 8;
      FlattenUnflatten(bits[..n]);
      UnflattenPush(bits[..n], bits[n..]);
      assert bits == bits[..n] + bits[n..];
      FlattenConcat(Unflatten(bits[..n]), [bits[n..]]);
    }
  }

  // ---- the stream -----------------------------------------------------------------

  const MODE_BYTE: seq<bool> := [false, true, false, false]

  /** Mode indicator, character count and the bytes themselves. */
  function Message(data: seq<Byte>, v: nat): seq<bool> {
    MODE_BYTE + NatBits(|data|, CountBits(v)) + Flatten(data)
  }

  /** The k-th padding codeword: 0xEC and 0x11 in turn. */
  function PadByte(k: nat): Byte {
    if k % 2 == 0 then [true, true, true, false, true, true, false, false]
    else [false, false, false, true, false, false, false, true]
  }

  function Padding(k: nat): (s: seq<bool>)
    ensures |s| == 8 * k
  {
    if k == 0 then [] else Padding(k - 1) + PadByte(k - 1)
  }

  /** The complete stream of a version's data codewords. */
  function Stream(data: seq<Byte>, v: nat): seq<bool>
    requires IsVersion(v) && Fits(v, |data|)
  {
    var m := Message(data, v) + [false, false, false, false];
    m + Padding(DataCw(v) - |m| / 8)
  }

  /** The logical shift to the right. */
  function ShiftRight(val: nat, i: nat): nat {
    if i == 0 then val else ShiftRight(val, i - 1) / 2
  }

  /** Appends the n low bits of val. */
  method Put(bits: seq<bool>, val: nat, n: nat) returns (r: seq<bool>)
    ensures r == bits + NatBits(val, n)
  {
    r := bits;
    for i := n downto 0
      invariant r == bits + NatBits(ShiftRight(val, i), n - i)
    {
      r := r + [ShiftRight(val, i) % 2 == 1];
    }
  }

  /** Appends zeros up to a whole number of bytes. */
  method PadToByte(bits: seq<bool>) returns (r: seq<bool>)
    ensures |r| % 8 == 0 && |bits| <= |r| < |bits| + 8
    ensures r[..|bits|] == bits && forall i :: |bits| <= i < |r| ==> !r[i]
  {
    r := bits;
    while |r| % 8 != 0
      invariant |bits| <= |r| <= (|bits| + 7) / 8 * 8
      invariant r[..|bits|] == bits && forall i :: |bits| <= i < |r| ==> !r[i]
      decreases (|bits| + 7) / 8 * 8 - |r|
    {
      r := r + [false];
    }
  }

  /** Cuts a list of bits into codewords. */
  method Group(bits: seq<bool>) returns (cw: seq<Byte>)
    requires |bits| % 8 == 0
    ensures cw == Unflatten(bits)
  {
    cw := [];
    var i := 0;
    while i < |bits|
      invariant 0 <= i <= |bits| && i % 8 == 0 && |cw| == i / 8
      invariant cw == Unflatten(bits)[..i / 8]
    {
      cw := cw + [bits[i..i + 8]];
      i := i + 8;
    }
  }

  method BuildHeader(data: seq<Byte>, ver: nat) returns (bits: seq<bool>)
    ensures bits == Message(data, ver)
  {
    hide NatBits, Flatten;
    bits := Put([], 4, 4);
    ModeBits();
    assert bits == MODE_BYTE;
    FlattenNothing();
    bits := Put(bits, |data|, if ver < 10 then 8 else 16);
    ghost var header := bits;
    for i := 0 to |data|
      invariant bits == header + Flatten(data[..i])
    {
      FlattenPush(data[..i], data[i]);
      assert data[..i + 1] == data[..i] + [data[i]];
      bits := bits + data[i];
    }
    assert data[..|data|] == data;
  }

  lemma FlattenNothing()
    ensures Flatten([]) == []
  {
  }

  /** Fills the stream up with the two padding codewords in turn. */
  method AppendPadding(bits: seq<bool>, capacity: nat) returns (r: seq<bool>)
    requires |bits| % 8 == 0 && capacity % 8 == 0 && |bits| <= capacity
    ensures r == bits + Padding((capacity - |bits|) / 8)
  {
    hide PadByte, Xor;
    r := bits;
    var pad := PadByte(0);
    ghost var k := 0;
    while |r| < capacity
      invariant |r| == |bits| + 8 * k <= capacity
      invariant pad == PadByte(k) && r == bits + Padding(k)
    {
      NextPad(k);
      r := r + pad;
      pad := Xor(pad, Xor(PadByte(0), PadByte(1)));
      k := k + 1;
    }
  }

  lemma NextPad(k: nat)
    ensures PadByte(k + 1) == Xor(PadByte(k), Xor(PadByte(0), PadByte(1)))
  {
  }

  method BuildCodewords(data: seq<Byte>, ver: nat) returns (cw: seq<Byte>)
    requires IsVersion(ver) && Fits(ver, |data|)
    ensures |cw| == DataCw(ver)
    ensures Flatten(cw) == Stream(data, ver)
  {
    hide SpecOf, NatBits, Flatten, Padding, Unflatten;
    var dataCw := DataCw(ver);
    var bits := BuildHeader(data, ver);
    var left := dataCw * 8 - |bits|;
    bits := Put(bits, 0, if 4 <= left then 4 else left);
    FourZeros();
    ghost var m := Message(data, ver) + [false, false, false, false];
    assert bits == m;
    bits := PadToByte(bits);
    assert bits == m;
    bits := AppendPadding(bits, dataCw * 8);
    cw := Group(bits);
    FlattenUnflatten(bits);
  }

  lemma ModeBits()
    ensures NatBits(4, 4) == MODE_BYTE
  {
    assert NatBits(1, 2) == NatBits(0, 1) + [true];
    assert NatBits(2, 3) == NatBits(1, 2) + [false];
    assert NatBits(4, 4) == NatBits(2, 3) + [false];
  }

  lemma FourZeros()
    ensures NatBits(0, 4) == [false, false, false, false]
  {
    assert NatBits(0, 2) == NatBits(0, 1) + [false];
    assert NatBits(0, 3) == NatBits(0, 2) + [false];
    assert NatBits(0, 4) == NatBits(0, 3) + [false];
  }

  // ---- reading it back --------------------------------------------------------------

  /** Reads mode, count and bytes; None when the stream is not a byte-mode message. */
  function Parse(bits: seq<bool>, v: nat): Option<seq<Byte>> {
    var h := 4 + CountBits(v);
    if |bits| < h || bits[..4] != MODE_BYTE then None
    else
      var n := BitsNat(bits[4..h]);
      if |bits| < h + 8 * n then None else Some(Unflatten(bits[h..h + 8 * n]))
  }

  lemma ParseMessage(data: seq<Byte>, v: nat, rest: seq<bool>)
    requires |data| < Pow2(CountBits(v))
    ensures Parse(Message(data, v) + rest, v) == Some(data)
  {
    var bits, h := Message(data, v) + rest, 4 + CountBits(v);
    assert bits[..4] == MODE_BYTE;
    assert bits[4..h] == NatBits(|data|, CountBits(v));
    BitsOfNat(|data|, CountBits(v));
    assert bits[h..h + 8 * |data|] == Flatten(data);
    UnflattenFlatten(data);
  }

  /** Whatever fits a version is read back from its codewords. */
  lemma ParseStream(data: seq<Byte>, v: nat)
    requires IsVersion(v) && Fits(v, |data|)
    ensures Parse(Stream(data, v), v) == Some(data)
  {
    hide Parse, Padding, SpecOf, Flatten, NatBits;
    CountFits(data, v);
    var m := Message(data, v) + [false, false, false, false];
    var p := Padding(DataCw(v) - |m| / 8);
    assert Stream(data, v) == Message(data, v) + ([false, false, false, false] + p);
    ParseMessage(data, v, [false, false, false, false] + p);
  }

  lemma CountFits(data: seq<Byte>, v: nat)
    requires IsVersion(v) && Fits(v, |data|)
    ensures |data| < Pow2(CountBits(v))
  {
    assert Pow2(8) == 256 && Pow2(16) == 65536;
  }
}
