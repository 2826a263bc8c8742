/** Bit expansion (ec/test_expand.py): every `ecW`-bit coefficient of a compact
    `M x ecData` bitmatrix is widened into `ecW` byte masks, most significant bit
    first, giving the `M x K` operand (`K = ecData * ecW`) the kernel consumes. */
module Expand {
  import opened Bytes
  import opened Matrix

  function Pow2(e: nat): (p: nat)
    ensures p >= 1
  {
    if e == 0 then 1 else 2 * Pow2(e - 1)
  }

  /** Bit `s` of a coefficient, i.e. `a & (1 << s) > 0`. Coefficients are unbounded
      naturals: the workload is generic in its dtype. */
  predicate Bit(a: nat, s: nat) {
    if s == 0 then a % 2 == 1 else Bit(a / 2, s - 1)
  }

  /** The shift `ecW - idx - 1` that `map` applies for bit position `idx`. */
  function ShiftFor(idx: nat, ecW: nat): (s: nat)
    requires idx < ecW
    ensures s < ecW
    ensures idx == 0 ==> s == ecW - 1
    ensures idx == ecW - 1 ==> s == 0
  {
    ecW - idx - 1
  }

  /** `map(idx, ecW, A)`: the byte mask for position `idx` of coefficient `a`, counting
      positions from the most significant of its `ecW` bits. */
  function MapBit(idx: nat, ecW: nat, a: nat): (r: bv8)
    requires idx < ecW
    ensures IsMask(r)
    ensures r == 0xFF <==> Bit(a, ecW - idx - 1)
  {
    Mask(Bit(a, ShiftFor(idx, ecW)))
  }

  /** Every output column `j < K` reads an existing input column `j / ecW < K / ecW`
      when `K` is a multiple of `ecW`. */
  lemma SourceColumnInRange(j: nat, k: nat, ecW: nat)
    requires ecW > 0 && k % ecW == 0 && j < k
    ensures j / ecW < k / ecW && j % ecW < ecW
  {
    OffsetCell(j, k / ecW, ecW);
  }

  /** `expand(M, K, ecW)`: output cell `(i, j)` is `map(j % ecW, ecW, A[i, j / ecW])`. */
  function Expand(a: seq<seq<nat>>, m: nat, k: nat, ecW: nat): (r: seq<seq<bv8>>)
    requires ecW > 0 && k % ecW == 0 && IsMatrix(a, m, k / ecW)
    ensures IsMatrix(r, m, k)
    ensures forall i, j :: 0 <= i < m && 0 <= j < k ==> IsMask(r[i][j])
  {
    seq(m, i requires 0 <= i < m =>
      seq(k, j requires 0 <= j < k => SourceColumnInRange(j, k, ecW); MapBit(j % ecW, ecW, a[i][j / ecW])))
  }

  /** With `K = ecData * ecW`, as `main` builds it, `K // ecW` is exactly `ecData` and the
      shapes line up. */
  lemma AlignedWidth(ecData: nat, ecW: nat)
    requires ecW > 0
    ensures (ecData * ecW) % ecW == 0 && (ecData * ecW) / ecW == ecData
  {
    DivModUnique(ecData * ecW, ecW, ecData, 0);
  }

  /** When `K` is not a multiple of `ecW`, the last output column reads column
      `K // ecW` of A, one past its last column: `expand` has no guard against this. */
  lemma UnalignedWidthReadsPastEnd(k: nat, ecW: nat)
    requires ecW > 0 && k % ecW != 0
    ensures k > 0 && (k - 1) / ecW == k / ecW
  {
    DivModUnique(k - 1, ecW, k / ecW, k % ecW - 1);
  }

  /** Column `c * ecW + b` holds bit `ecW - 1 - b` of `A[i, c]`: most significant bit first. */
  lemma ExpandCell(a: seq<seq<nat>>, m: nat, k: nat, ecW: nat, i: nat, c: nat, b: nat)
    requires ecW > 0 && k % ecW == 0 && IsMatrix(a, m, k / ecW)
    requires i < m && c < k / ecW && b < ecW
    ensures c * ecW + b < k
    ensures Expand(a, m, k, ecW)[i][c * ecW + b] == Mask(Bit(a[i][c], ecW - 1 - b))
  {
    DivModUnique(c * ecW + b, ecW, c, b);
    DivModUnique(k, ecW, k / ecW, 0);
    CellFits(c, b, k / ecW, ecW);
  }

  /** Output cell `(i, j)` depends only on `A[i, j / ecW]` (and the position `j % ecW`). */
  lemma ExpandLocality(a: seq<seq<nat>>, a': seq<seq<nat>>, m: nat, k: nat, ecW: nat, i: nat, j: nat)
    requires ecW > 0 && k % ecW == 0 && IsMatrix(a, m, k / ecW) && IsMatrix(a', m, k / ecW)
    requires i < m && j < k
    requires j / ecW < k / ecW && a[i][j / ecW] == a'[i][j / ecW]
    ensures Expand(a, m, k, ecW)[i][j] == Expand(a', m, k, ecW)[i][j]
  {
  }

  /** The `w` masks of a coefficient, most significant bit first. */
  function MaskBits(a: nat, w: nat): (r: seq<bv8>)
    ensures |r| == w
  {
    seq(w, b requires 0 <= b < w => Mask(Bit(a, w - 1 - b)))
  }

  /** Reassembles a coefficient from masks, most significant first, testing each for `> 0`. */
  function FromMasks(s: seq<bv8>): nat {
    if |s| == 0 then 0 else 2 * FromMasks(s[..|s| - 1]) + (if s[|s| - 1] > 0 then 1 else 0)
  }

  lemma MaskBitsSplit(a: nat, w: nat)
    requires w > 0
    ensures MaskBits(a, w) == MaskBits(a / 2, w - 1) + [Mask(a % 2 == 1)]
  {
    var lhs, rhs := MaskBits(a, w), MaskBits(a / 2, w - 1) + [Mask(a % 2 == 1)];
    forall b | 0 <= b < w
      ensures lhs[b] == rhs[b]
    {
      if b < w - 1 {
        assert Bit(a, w - 1 - b) == Bit(a / 2, w - 2 - b);
      }
    }
  }

  /** Widening then reassembling a coefficient that fits in `w` bits gives it back. */
  lemma {:induction false} FromMaskBits(a: nat, w: nat)
    requires a < Pow2(w)
    ensures FromMasks(MaskBits(a, w)) == a
  {
    if w == 0 {
    } else {
      MaskBitsSplit(a, w);
      var s := MaskBits(a, w);
      assert s[..w - 1] == MaskBits(a / 2, w - 1);
      FromMaskBits(a / 2, w - 1);
    }
  }

  /** Reassembling masks then widening again gives the masks back. */
  lemma {:induction false} MaskBitsFromMasks(s: seq<bv8>)
    requires forall t :: 0 <= t < |s| ==> IsMask(s[t])
    ensures FromMasks(s) < Pow2(|s|)
    ensures MaskBits(FromMasks(s), |s|) == s
  {
    if |s| > 0 {
      var w := |s|;
      var front := s[..w - 1];
      MaskBitsFromMasks(front);
      var v := FromMasks(s);
      assert v / 2 == FromMasks(front) && v % 2 == (if s[w - 1] > 0 then 1 else 0);
      MaskBitsSplit(v, w);
      assert s == front + [s[w - 1]];
    }
  }

  /** The block of `ecW` output columns of coefficient `A[i, c]`. */
  lemma ExpandBlock(a: seq<seq<nat>>, m: nat, k: nat, ecW: nat, i: nat, c: nat)
    requires ecW > 0 && k % ecW == 0 && IsMatrix(a, m, k / ecW)
    requires i < m && c < k / ecW
    ensures c * ecW + ecW <= k
    ensures Expand(a, m, k, ecW)[i][c * ecW..c * ecW + ecW] == MaskBits(a[i][c], ecW)
  {
    DivModUnique(k, ecW, k / ecW, 0);
    RowFits(c, k / ecW, ecW);
    var block := Expand(a, m, k, ecW)[i][c * ecW..c * ecW + ecW];
    forall b | 0 <= b < ecW
      ensures block[b] == MaskBits(a[i][c], ecW)[b]
    {
      ExpandCell(a, m, k, ecW, i, c, b);
    }
  }

  /** Every coefficient fits in `ecW` bits. */
  predicate FitsWidth(a: seq<seq<nat>>, m: nat, ecData: nat, ecW: nat)
    requires IsMatrix(a, m, ecData)
  {
    forall i, c :: 0 <= i < m && 0 <= c < ecData ==> a[i][c] < Pow2(ecW)
  }

  /** Inverse of `expand`: reassembles each block of `ecW` masks into a coefficient. */
  function Compact(r: seq<seq<bv8>>, m: nat, k: nat, ecW: nat): (a: seq<seq<nat>>)
    requires ecW > 0 && k % ecW == 0 && IsMatrix(r, m, k)
    ensures IsMatrix(a, m, k / ecW)
  {
    DivModUnique(k, ecW, k / ecW, 0);
    seq(m, i requires 0 <= i < m =>
      seq(k / ecW, c requires 0 <= c < k / ecW => RowFits(c, k / ecW, ecW); FromMasks(r[i][c * ecW..c * ecW + ecW])))
  }

  /** Expansion is lossless: thresholding the masks (`> 0`) and reassembling them most
      significant bit first recovers every coefficient that fits in `ecW` bits. */
  lemma CompactExpand(a: seq<seq<nat>>, m: nat, k: nat, ecW: nat)
    requires ecW > 0 && k % ecW == 0 && IsMatrix(a, m, k / ecW) && FitsWidth(a, m, k / ecW, ecW)
    ensures Compact(Expand(a, m, k, ecW), m, k, ecW) == a
  {
    var back := Compact(Expand(a, m, k, ecW), m, k, ecW);
    forall i | 0 <= i < m
      ensures back[i] == a[i]
    {
      forall c | 0 <= c < k / ecW
        ensures back[i][c] == a[i][c]
      {
        ExpandBlock(a, m, k, ecW, i, c);
        FromMaskBits(a[i][c], ecW);
      }
    }
  }

  lemma ExpandCompactCell(r: seq<seq<bv8>>, m: nat, k: nat, ecW: nat, i: nat, j: nat)
    requires ecW > 0 && k % ecW == 0 && IsMatrix(r, m, k) && i < m && j < k
    requires forall i, j :: 0 <= i < m && 0 <= j < k ==> IsMask(r[i][j])
    ensures Expand(Compact(r, m, k, ecW), m, k, ecW)[i][j] == r[i][j]
  {
    var a := Compact(r, m, k, ecW);
    var c, b := j / ecW, j % ecW;
    SourceColumnInRange(j, k, ecW);
    DivModUnique(k, ecW, k / ecW, 0);
    RowFits(c, k / ecW, ecW);
    assert j == c * ecW + b;
    var block := r[i][c * ecW..c * ecW + ecW];
    assert a[i][c] == FromMasks(block);
    MaskBitsFromMasks(block);
    assert MaskBits(a[i][c], ecW)[b] == r[i][j];
    ExpandBlock(a, m, k, ecW, i, c);
  }

  /** Conversely, a matrix of masks is the expansion of its compaction. */
  lemma ExpandCompact(r: seq<seq<bv8>>, m: nat, k: nat, ecW: nat)
    requires ecW > 0 && k % ecW == 0 && IsMatrix(r, m, k)
    requires forall i, j :: 0 <= i < m && 0 <= j < k ==> IsMask(r[i][j])
    ensures Expand(Compact(r, m, k, ecW), m, k, ecW) == r
  {
    var e := Expand(Compact(r, m, k, ecW), m, k, ecW);
    forall i | 0 <= i < m
      ensures e[i] == r[i]
    {
      forall j | 0 <= j < k
        ensures e[i][j] == r[i][j]
      {
        ExpandCompactCell(r, m, k, ecW, i, j);
      }
    }
  }

  /** With `ecW = 1` a matrix already made of `0x00`/`0xFF` values expands to itself. */
  lemma ExpandWidthOneKeepsMasks(a: seq<seq<nat>>, m: nat, k: nat)
    requires IsMatrix(a, m, k)
    requires forall i, j :: 0 <= i < m && 0 <= j < k ==> a[i][j] == 0 || a[i][j] == 0xFF
    ensures IsMatrix(a, m, k / 1)
    ensures forall i, j :: 0 <= i < m && 0 <= j < k ==> Expand(a, m, k, 1)[i][j] as nat == a[i][j]
  {
  }
}
