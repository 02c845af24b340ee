/**
 * Block splitting and interleaving of the QR encoder (section 7.6 of ISO/IEC
 * 18004:2015), and the reader that takes the blocks apart again.
 */
module QrBlocks {
  import opened Arithmetic
  import opened GF256
  import opened ReedSolomon
  import opened QrStream

  ghost predicate ValidSpec(sp: Spec) {
    sp.blocks >= 1 && sp.ecLen >= 1 && sp.total / sp.blocks >= sp.ecLen
  }

  function ShortLen(sp: Spec): nat
    requires sp.blocks >= 1
  {
    sp.total / sp.blocks
  }

  function NumShort(sp: Spec): (n: nat)
    requires sp.blocks >= 1
    ensures 1 <= n <= sp.blocks
  {
    sp.blocks - sp.total % sp.blocks
  }

  /** Number of data codewords in a short block. */
  function ShortData(sp: Spec): nat
    requires ValidSpec(sp)
  {
    ShortLen(sp) - sp.ecLen
  }

  function DataLen(sp: Spec, j: nat): nat
    requires ValidSpec(sp)
  {
    ShortData(sp) + if j < NumShort(sp) then 0 else 1
  }

  /** Index of the first data codeword of block j. */
  function BlockStart(sp: Spec, j: nat): nat
    requires ValidSpec(sp)
  {
    if j == 0 then 0 else BlockStart(sp, j - 1) + DataLen(sp, j - 1)
  }

  lemma {:induction false} BlockStartClosed(sp: Spec, j: nat)
    requires ValidSpec(sp)
    ensures BlockStart(sp, j) == j * ShortData(sp) + if j <= NumShort(sp) then 0 else j - NumShort(sp)
  {
    if j > 0 {
      BlockStartClosed(sp, j - 1);
      assert j * ShortData(sp) == (j - 1) * ShortData(sp) + ShortData(sp);
    }
  }

  lemma {:induction false} BlockStartMonotone(sp: Spec, i: nat, j: nat)
    requires ValidSpec(sp) && i <= j
    ensures BlockStart(sp, i) <= BlockStart(sp, j)
  {
    if i < j {
      BlockStartMonotone(sp, i, j - 1);
    }
  }

  /** The blocks use up the data codewords exactly. */
  lemma AllDataUsed(sp: Spec)
    requires ValidSpec(sp)
    ensures BlockStart(sp, sp.blocks) == sp.total - sp.ecLen * sp.blocks
  {
    BlockStartClosed(sp, sp.blocks);
    assert sp.total == sp.blocks * ShortLen(sp) + sp.total % sp.blocks;
    assert sp.blocks * ShortLen(sp) == sp.blocks * ShortData(sp) + sp.blocks * sp.ecLen;
  }

  lemma SpecsValid(v: nat)
    requires IsVersion(v)
    ensures ValidSpec(SpecOf(v))
    ensures BlockStart(SpecOf(v), SpecOf(v).blocks) == DataCw(v)
  {
    assert ValidSpec(SpecOf(v));
    AllDataUsed(SpecOf(v));
  }

  // ---- building -------------------------------------------------------------------

  function BlockData(cw: seq<Byte>, sp: Spec, j: nat): (dat: seq<Byte>)
    requires ValidSpec(sp) && j < sp.blocks && |cw| == BlockStart(sp, sp.blocks)
    ensures |dat| == DataLen(sp, j)
  {
    BlockStartMonotone(sp, j + 1, sp.blocks);
    cw[BlockStart(sp, j)..BlockStart(sp, j + 1)]
  }

  /** A block as the encoder keeps it: a short one has a dummy byte before its check bytes. */
  function PaddedBlock(cw: seq<Byte>, sp: Spec, j: nat): (b: seq<Byte>)
    requires ValidSpec(sp) && j < sp.blocks && |cw| == BlockStart(sp, sp.blocks)
    ensures |b| == ShortLen(sp) + 1
  {
    var dat := BlockData(cw, sp, j);
    dat + (if j < NumShort(sp) then [ZERO] else []) + Rs(dat, sp.ecLen)
  }

  predicate Skipped(sp: Spec, i: nat, j: nat)
    requires ValidSpec(sp)
  {
    i == ShortData(sp) && j < NumShort(sp)
  }

  /** Where column i of block j is sent: columns run over the blocks, dummies left out. */
  function Pos(sp: Spec, i: nat, j: nat): int
    requires ValidSpec(sp)
  {
    i * sp.blocks + j -
      (if i < ShortData(sp) then 0
       else if i == ShortData(sp) && j < NumShort(sp) then j
       else NumShort(sp))
  }

  /** out lists the columns of the padded blocks in order, without the dummies. */
  ghost predicate Interleaved(blocks: seq<seq<Byte>>, sp: Spec, out: seq<Byte>, i: nat, j: nat)
    requires ValidSpec(sp) && |blocks| == sp.blocks
    requires forall j :: 0 <= j < sp.blocks ==> |blocks[j]| == ShortLen(sp) + 1
  {
    |out| == Pos(sp, i, j) &&
    forall i', j' | 0 <= i' <= ShortLen(sp) && 0 <= j' < sp.blocks && !Skipped(sp, i', j') ::
      i' < i || (i' == i && j' < j) ==>
      0 <= Pos(sp, i', j') < |out| && out[Pos(sp, i', j')] == blocks[j'][i']
  }

  method BuildBlocks(cw: seq<Byte>, sp: Spec) returns (blocks: seq<seq<Byte>>)
    requires ValidSpec(sp) && |cw| == BlockStart(sp, sp.blocks)
    ensures |blocks| == sp.blocks
    ensures forall j :: 0 <= j < sp.blocks ==> blocks[j] == PaddedBlock(cw, sp, j)
  {
    var gen := BuildGenerator(sp.ecLen);
    blocks := [];
    var k := 0;
    hide Generator, RsAfter, Rs, PaddedBlock;
    for i := 0 to sp.blocks
      invariant |blocks| == i && k == BlockStart(sp, i)
      invariant gen.Length == sp.ecLen && gen[..] == Generator(sp.ecLen)
      invariant forall j :: 0 <= j < i ==> blocks[j] == PaddedBlock(cw, sp, j)
    {
      var block;
      block, k := BuildBlock(cw, sp, i, k, gen);
      blocks := blocks + [block];
    }
  }

  method BuildBlock(cw: seq<Byte>, sp: Spec, i: nat, k: nat, gen: array<Byte>)
    returns (block: seq<Byte>, k': nat)
    requires ValidSpec(sp) && i < sp.blocks && |cw| == BlockStart(sp, sp.blocks)
    requires k == BlockStart(sp, i) && gen.Length == sp.ecLen && gen[..] == Generator(sp.ecLen)
    ensures block == PaddedBlock(cw, sp, i) && k' == BlockStart(sp, i + 1)
  {
    hide Generator, RsAfter;
    var shortLen, numShort := sp.total / sp.blocks, sp.blocks - sp.total % sp.blocks;
    var n := shortLen - sp.ecLen + if i < numShort then 0 else 1;
    BlockStartMonotone(sp, i + 1, sp.blocks);
    var dat := cw[k..k + n];
    k' := k + n;
    var ecc := RemainderLoop(dat, gen);
    if i < numShort {
      dat := dat + [ZERO];
    }
    block := dat + ecc;
  }

  method Interleave(blocks: seq<seq<Byte>>, sp: Spec) returns (out: seq<Byte>)
    requires ValidSpec(sp) && |blocks| == sp.blocks
    requires forall j :: 0 <= j < sp.blocks ==> |blocks[j]| == ShortLen(sp) + 1
    ensures Interleaved(blocks, sp, out, ShortLen(sp) + 1, 0)
    ensures |out| == sp.total
  {
    out := [];
    for i := 0 to |blocks[0]|
      invariant Interleaved(blocks, sp, out, i, 0)
    {
      for j := 0 to |blocks|
        invariant Interleaved(blocks, sp, out, i, j)
      {
        if i != ShortData(sp) || j >= NumShort(sp) {
          out := out + [blocks[j][i]];
        }
      }
      NextColumn(sp, i);
    }
    EndPos(sp);
  }

  lemma NextColumn(sp: Spec, i: nat)
    requires ValidSpec(sp)
    ensures Pos(sp, i, sp.blocks) == Pos(sp, i + 1, 0)
  {
  }

  lemma EndPos(sp: Spec)
    requires ValidSpec(sp)
    ensures Pos(sp, ShortLen(sp) + 1, 0) == sp.total
  {
  }

  // ---- reading --------------------------------------------------------------------

  lemma PosInRange(sp: Spec, i: nat, j: nat)
    requires ValidSpec(sp) && i <= ShortLen(sp) && j < sp.blocks && !Skipped(sp, i, j)
    ensures 0 <= Pos(sp, i, j) < sp.total
  {
    hide ShortLen;
    ColumnBounds(sp, i);
  }

  /** Where column i starts and ends, before the dummies are taken out, against the whole. */
  lemma ColumnBounds(sp: Spec, i: nat)
    requires ValidSpec(sp) && i <= ShortLen(sp)
    ensures i * sp.blocks + sp.blocks <= ShortLen(sp) * sp.blocks + sp.blocks
    ensures i < ShortLen(sp) ==> i * sp.blocks + sp.blocks <= ShortLen(sp) * sp.blocks
    ensures i >= 1 ==> i * sp.blocks >= sp.blocks
    ensures sp.total == ShortLen(sp) * sp.blocks + sp.blocks - NumShort(sp)
  {
    TimesMonotone(i, ShortLen(sp), sp.blocks);
    if i < ShortLen(sp) {
      TimesMonotone(i + 1, ShortLen(sp), sp.blocks);
    }
    if i >= 1 {
      TimesMonotone(1, i, sp.blocks);
    }
  }

  function ReadData(out: seq<Byte>, sp: Spec, j: nat): (s: seq<Byte>)
    requires ValidSpec(sp) && j < sp.blocks && |out| == sp.total
    ensures |s| == DataLen(sp, j)
  {
    seq(DataLen(sp, j), i requires 0 <= i < DataLen(sp, j) => PosInRange(sp, i, j); out[Pos(sp, i, j)])
  }

  function ReadCheck(out: seq<Byte>, sp: Spec, j: nat): (s: seq<Byte>)
    requires ValidSpec(sp) && j < sp.blocks && |out| == sp.total
    ensures |s| == sp.ecLen
  {
    seq(sp.ecLen, e requires 0 <= e < sp.ecLen =>
      PosInRange(sp, ShortData(sp) + 1 + e, j); out[Pos(sp, ShortData(sp) + 1 + e, j)])
  }

  /** The data codewords of the first n blocks. */
  function Deinterleave(out: seq<Byte>, sp: Spec, n: nat): (cw: seq<Byte>)
    requires ValidSpec(sp) && n <= sp.blocks && |out| == sp.total
    ensures |cw| == BlockStart(sp, n)
  {
    if n == 0 then [] else Deinterleave(out, sp, n - 1) + ReadData(out, sp, n - 1)
  }

  ghost predicate Encodes(out: seq<Byte>, cw: seq<Byte>, sp: Spec) {
    ValidSpec(sp) && |out| == sp.total && |cw| == BlockStart(sp, sp.blocks) &&
    forall j :: 0 <= j < sp.blocks ==>
      ReadData(out, sp, j) == BlockData(cw, sp, j) && ReadCheck(out, sp, j) == Rs(BlockData(cw, sp, j), sp.ecLen)
  }

  method EncodeBlocks(cw: seq<Byte>, sp: Spec) returns (out: seq<Byte>)
    requires ValidSpec(sp) && |cw| == BlockStart(sp, sp.blocks)
    ensures Encodes(out, cw, sp)
  {
    var blocks := BuildBlocks(cw, sp);
    out := Interleave(blocks, sp);
    forall j | 0 <= j < sp.blocks
      ensures ReadData(out, sp, j) == BlockData(cw, sp, j)
      ensures ReadCheck(out, sp, j) == Rs(BlockData(cw, sp, j), sp.ecLen)
    {
      ReadBlock(cw, blocks, sp, out, j);
    }
  }

  lemma ReadBlock(cw: seq<Byte>, blocks: seq<seq<Byte>>, sp: Spec, out: seq<Byte>, j: nat)
    requires ValidSpec(sp) && j < sp.blocks && |cw| == BlockStart(sp, sp.blocks)
    requires |blocks| == sp.blocks && |out| == sp.total
    requires forall k :: 0 <= k < sp.blocks ==> |blocks[k]| == ShortLen(sp) + 1
    requires blocks[j] == PaddedBlock(cw, sp, j)
    requires Interleaved(blocks, sp, out, ShortLen(sp) + 1, 0)
    ensures ReadData(out, sp, j) == BlockData(cw, sp, j)
    ensures ReadCheck(out, sp, j) == Rs(BlockData(cw, sp, j), sp.ecLen)
  {
    var dat, ecc := BlockData(cw, sp, j), Rs(BlockData(cw, sp, j), sp.ecLen);
    forall i | 0 <= i < |dat|
      ensures ReadData(out, sp, j)[i] == dat[i]
    {
      assert out[Pos(sp, i, j)] == blocks[j][i];
    }
    forall e | 0 <= e < sp.ecLen
      ensures ReadCheck(out, sp, j)[e] == ecc[e]
    {
      assert out[Pos(sp, ShortData(sp) + 1 + e, j)] == blocks[j][ShortData(sp) + 1 + e];
    }
  }

  lemma {:induction false} DeinterleavePrefix(out: seq<Byte>, cw: seq<Byte>, sp: Spec, n: nat)
    requires Encodes(out, cw, sp) && n <= sp.blocks
    ensures BlockStart(sp, n) <= |cw| && Deinterleave(out, sp, n) == cw[..BlockStart(sp, n)]
  {
    hide ReadData, ReadCheck, BlockData, Rs;
    BlockStartMonotone(sp, n, sp.blocks);
    if n > 0 {
      DeinterleavePrefix(out, cw, sp, n - 1);
      assert ReadData(out, sp, n - 1) == BlockData(cw, sp, n - 1);
      DataAt(cw, sp, n - 1);
    }
  }

  lemma DataAt(cw: seq<Byte>, sp: Spec, j: nat)
    requires ValidSpec(sp) && j < sp.blocks && |cw| == BlockStart(sp, sp.blocks)
    ensures BlockStart(sp, j + 1) <= |cw| && BlockData(cw, sp, j) == cw[BlockStart(sp, j)..BlockStart(sp, j + 1)]
  {
    BlockStartMonotone(sp, j + 1, sp.blocks);
  }

  /** The data codewords of block j, by plain arithmetic on the version's numbers. */
  function Share(cw: seq<Byte>, sp: Spec, j: nat): (dat: seq<Byte>)
    requires ValidSpec(sp) && j < sp.blocks && |cw| == sp.total - sp.ecLen * sp.blocks
    ensures |dat| == sp.total / sp.blocks - sp.ecLen + if j < sp.blocks - sp.total % sp.blocks then 0 else 1
  {
    var least, short := sp.total / sp.blocks - sp.ecLen, sp.blocks - sp.total % sp.blocks;
    var start := j * least + if j <= short then 0 else j - short;
    AllDataUsed(sp);
    BlockStartClosed(sp, j);
    BlockStartClosed(sp, j + 1);
    BlockStartMonotone(sp, j + 1, sp.blocks);
    cw[start..start + least + if j < short then 0 else 1]
  }

  /**
   * The first data codewords of all blocks, then the second ones and so on, at the end those
   * that only the long blocks have.
   */
  lemma DataInColumns(out: seq<Byte>, cw: seq<Byte>, sp: Spec, i: nat, j: nat)
    requires Encodes(out, cw, sp) && j < sp.blocks
    ensures |cw| == sp.total - sp.ecLen * sp.blocks
    ensures i < |Share(cw, sp, j)| ==>
      var at := i * sp.blocks + j -
        if i < sp.total / sp.blocks - sp.ecLen then 0 else sp.blocks - sp.total % sp.blocks;
      0 <= at < |out| && out[at] == Share(cw, sp, j)[i]
  {
    hide Rs, Share;
    ShareIsData(cw, sp, j);
    if i < |Share(cw, sp, j)| {
      PosInRange(sp, i, j);
      assert ReadData(out, sp, j)[i] == out[Pos(sp, i, j)];
    }
  }

  /** Then the first check codewords of all blocks, the second ones and so on. */
  lemma ChecksInColumns(out: seq<Byte>, cw: seq<Byte>, sp: Spec, e: nat, j: nat)
    requires Encodes(out, cw, sp) && j < sp.blocks && e < sp.ecLen
    ensures |cw| == sp.total - sp.ecLen * sp.blocks
    ensures var at := sp.total - sp.ecLen * sp.blocks + e * sp.blocks + j;
      0 <= at < |out| && out[at] == Rs(Share(cw, sp, j), sp.ecLen)[e]
  {
    hide Rs, Share;
    ShareIsData(cw, sp, j);
    PosInRange(sp, ShortData(sp) + 1 + e, j);
    CheckPos(sp, e, j);
    hide Pos;
    assert ReadCheck(out, sp, j)[e] == out[Pos(sp, ShortData(sp) + 1 + e, j)];
  }

  lemma ShareIsData(cw: seq<Byte>, sp: Spec, j: nat)
    requires ValidSpec(sp) && j < sp.blocks && |cw| == BlockStart(sp, sp.blocks)
    ensures |cw| == sp.total - sp.ecLen * sp.blocks && Share(cw, sp, j) == BlockData(cw, sp, j)
  {
    AllDataUsed(sp);
    BlockStartClosed(sp, j);
    BlockStartMonotone(sp, j + 1, sp.blocks);
  }

  lemma CheckPos(sp: Spec, e: nat, j: nat)
    requires ValidSpec(sp)
    ensures Pos(sp, ShortData(sp) + 1 + e, j) == sp.total - sp.ecLen * sp.blocks + e * sp.blocks + j
  {
    assert sp.total == ShortLen(sp) * sp.blocks + sp.total % sp.blocks;
    assert (ShortData(sp) + 1 + e) * sp.blocks ==
      ShortLen(sp) * sp.blocks - sp.ecLen * sp.blocks + sp.blocks + e * sp.blocks;
  }

  /** Every block of an interleaved stream is a Reed-Solomon codeword. */
  ghost predicate BlocksVanish(out: seq<Byte>, sp: Spec) {
    ValidSpec(sp) && |out| == sp.total &&
    forall j :: 0 <= j < sp.blocks ==> Vanishes(ReadData(out, sp, j) + ReadCheck(out, sp, j), sp.ecLen)
  }

  /** Taking the blocks apart gives the data codewords back, and every block is a codeword. */
  lemma DeinterleaveInverts(out: seq<Byte>, cw: seq<Byte>, sp: Spec)
    requires Encodes(out, cw, sp)
    ensures Deinterleave(out, sp, sp.blocks) == cw
    ensures BlocksVanish(out, sp)
  {
    DeinterleavePrefix(out, cw, sp, sp.blocks);
    forall j | 0 <= j < sp.blocks
      ensures Vanishes(ReadData(out, sp, j) + ReadCheck(out, sp, j), sp.ecLen)
    {
      CodewordVanishes(BlockData(cw, sp, j), sp.ecLen);
    }
  }
}
