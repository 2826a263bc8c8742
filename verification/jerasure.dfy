/** The Jerasure bridge `tvm_ec_bitmatrix_multiply` (deploy/tvm_jerasure.cc): it
    derives the kernel's operand shapes from Jerasure's `k, m, w, packetsize`,
    turns the 0/1 `int` bitmatrix into byte masks, packs the `k` data fragments
    row-block by row-block into a flat row-major B, runs the kernel, and copies the
    `m` parity row-blocks of C out to the coding fragments. */
module Jerasure {
  import opened Bytes
  import opened XorReduce
  import opened Matrix
  import opened Kernel
  import ScheduleName

  datatype Shape = Shape(rows: nat, cols: nat)

  /** The three 2-D operand shapes the bridge allocates. */
  datatype OperandShapes = OperandShapes(a: Shape, b: Shape, c: Shape)

  /** `shape_A = {m*w, k*w}`, `shape_B = {k*w, packetsize}`, `shape_C = {m*w, packetsize}`. */
  function ShapesFor(k: nat, m: nat, w: nat, packetsize: nat): (s: OperandShapes)
    ensures s.a.cols == s.b.rows
    ensures s.c.rows == s.a.rows && s.c.cols == s.b.cols
    ensures s.b.rows * s.b.cols == k * (w * packetsize)
    ensures s.c.rows * s.c.cols == m * (w * packetsize)
    ensures s.a.rows == m * w && s.b.rows == k * w && s.c.cols == packetsize
  {
    BlockSizes(k, w, packetsize);
    BlockSizes(m, w, packetsize);
    OperandShapes(Shape(m * w, k * w), Shape(k * w, packetsize), Shape(m * w, packetsize))
  }

  /** `count` blocks of `w` rows of `packetsize` bytes, counted either way. */
  lemma BlockSizes(count: nat, w: nat, packetsize: nat)
    ensures (count * w) * packetsize == count * (w * packetsize)
  {
  }

  /** One entry of the fill loop: nonzero becomes `0xFF` (`~0` as a byte), zero `0x00`. */
  function FillEntry(v: int): (r: bv8)
    ensures IsMask(r)
    ensures r != 0 <==> v != 0
  {
    if v != 0 then 0xFF else 0x00
  }

  /** The first `n` entries of the bitmatrix, filled in place order. */
  function Fill(bitmatrix: seq<int>, n: nat): (x: seq<bv8>)
    requires n <= |bitmatrix|
    ensures |x| == n
    ensures forall t :: 0 <= t < n ==> IsMask(x[t]) && (x[t] != 0 <==> bitmatrix[t] != 0)
  {
    seq(n, t requires 0 <= t < n => FillEntry(bitmatrix[t]))
  }

  /** The bytes of a filled buffer, read back as `int` entries. */
  function Widen(x: seq<bv8>): (v: seq<int>)
    ensures |v| == |x|
    ensures forall t :: 0 <= t < |x| ==> v[t] == x[t] as int
  {
    seq(|x|, t requires 0 <= t < |x| => x[t] as int)
  }

  /** Filling an already filled matrix changes nothing. */
  lemma FillIdempotent(bitmatrix: seq<int>, n: nat)
    requires n <= |bitmatrix|
    ensures Fill(Widen(Fill(bitmatrix, n)), n) == Fill(bitmatrix, n)
  {
  }

  /** Fill is lossless: testing `!= 0` on the filled buffer recovers exactly which
      bitmatrix entries were nonzero. */
  lemma FillLossless(bitmatrix: seq<int>, bitmatrix': seq<int>, n: nat)
    requires n <= |bitmatrix| && n <= |bitmatrix'|
    ensures Fill(bitmatrix, n) == Fill(bitmatrix', n)
        <==> forall t :: 0 <= t < n ==> (bitmatrix[t] != 0 <==> bitmatrix'[t] != 0)
  {
    if forall t :: 0 <= t < n ==> (bitmatrix[t] != 0 <==> bitmatrix'[t] != 0) {
      var x, x' := Fill(bitmatrix, n), Fill(bitmatrix', n);
      assert forall t :: 0 <= t < n ==> x[t] == x'[t];
    }
  }

  /** The inner fill loop for one row: entries `base .. base + cols - 1` of the buffer
      become the fill of the matching bitmatrix entries; the rest of the buffer is kept. */
  method FillRow(x: seq<bv8>, bitmatrix: seq<int>, base: nat, cols: nat) returns (x': seq<bv8>)
    requires base + cols <= |x| && base + cols <= |bitmatrix|
    ensures |x'| == |x|
    ensures forall t :: base <= t < base + cols ==> x'[t] == FillEntry(bitmatrix[t])
    ensures forall t :: 0 <= t < |x| && !(base <= t < base + cols) ==> x'[t] == x[t]
  {
    x' := x;
    for j := 0 to cols
      invariant |x'| == |x|
      invariant forall t :: base <= t < base + j ==> x'[t] == FillEntry(bitmatrix[t])
      invariant forall t :: 0 <= t < |x| && !(base <= t < base + j) ==> x'[t] == x[t]
    {
      var idx := base + j;
      if bitmatrix[idx] != 0 {
        x' := x'[idx := 0xFF];
      } else {
        x' := x'[idx := 0x00];
      }
    }
  }

  /** The fill loop over `i < m*w`, `j < k*w` writing index `i*k*w + j` of a freshly
      allocated buffer whose previous contents are `scratch`. */
  method FillBitmatrix(bitmatrix: seq<int>, k: nat, m: nat, w: nat, scratch: seq<bv8>) returns (x: seq<bv8>)
    requires (m * w) * (k * w) <= |bitmatrix|
    requires |scratch| == (m * w) * (k * w)
    ensures x == Fill(bitmatrix, (m * w) * (k * w))
  {
    var rows, cols := m * w, k * w;
    x := scratch;
    for i := 0 to rows
      invariant |x| == rows * cols
      invariant i * cols <= rows * cols
      invariant forall t :: 0 <= t < i * cols ==> x[t] == FillEntry(bitmatrix[t])
    {
      RowFits(i, rows, cols);
      var base := i * k * w;
      assert base == i * cols;
      x := FillRow(x, bitmatrix, base, cols);
      assert base + cols == (i + 1) * cols;
    }
  }

  /** Every one of the first `count` fragments holds at least `f` bytes. */
  predicate FragmentsHold(data: seq<seq<bv8>>, count: nat, f: nat) {
    count <= |data| && forall i :: 0 <= i < count ==> f <= |data[i]|
  }

  /** The first `f` bytes of each of the first `count` fragments, back to back. */
  function Pack(data: seq<seq<bv8>>, count: nat, f: nat): (y: seq<bv8>)
    requires FragmentsHold(data, count, f)
    ensures |y| == count * f
  {
    if count == 0 then [] else Pack(data, count - 1, f) + data[count - 1][..f]
  }

  /** Byte `t` of fragment `i` lands at offset `i * f + t` of the packed buffer. */
  lemma {:induction false} PackCell(data: seq<seq<bv8>>, count: nat, f: nat, i: nat, t: nat)
    requires FragmentsHold(data, count, f) && i < count && t < f
    ensures i * f + t < count * f
    ensures Pack(data, count, f)[i * f + t] == data[i][t]
  {
    CellFits(i, t, count, f);
    if i < count - 1 {
      PackCell(data, count - 1, f, i, t);
    }
  }

  /** The blocks are disjoint and cover the buffer: every offset `t` comes from exactly
      one fragment, `t / f`, at offset `t % f`. */
  lemma PackCovers(data: seq<seq<bv8>>, count: nat, f: nat, t: nat)
    requires FragmentsHold(data, count, f) && t < count * f
    ensures t / f < count && t % f < f
    ensures Pack(data, count, f)[t] == data[t / f][t % f]
  {
    OffsetCell(t, count, f);
    PackCell(data, count, f, t / f, t % f);
  }

  /** The copy loop `memcpy(B + i*w*packetsize, data_ptrs[i], w*packetsize)` for `i < k`
      over a freshly allocated buffer whose previous contents are `scratch`. */
  method PackData(data: seq<seq<bv8>>, k: nat, w: nat, packetsize: nat, scratch: seq<bv8>) returns (y: seq<bv8>)
    requires FragmentsHold(data, k, w * packetsize)
    requires |scratch| == k * (w * packetsize)
    ensures y == Pack(data, k, w * packetsize)
  {
    var f := w * packetsize;
    y := scratch;
    for i := 0 to k
      invariant |y| == k * f
      invariant i * f <= k * f
      invariant y[..i * f] == Pack(data, i, f)
    {
      RowFits(i, k, f);
      var offset := i * w * packetsize;
      assert offset == i * f;
      y := y[..offset] + data[i][..f] + y[offset + f..];
      assert y[..(i + 1) * f] == y[..offset] + data[i][..f];
    }
    assert y == y[..k * f];
  }

  /** Row block `i` (`f` bytes from offset `i * f`) of a flat buffer, for each `i < count`. */
  function Unpack(z: seq<bv8>, count: nat, f: nat): (frags: seq<seq<bv8>>)
    requires count * f <= |z|
    ensures |frags| == count
    ensures forall i :: 0 <= i < count ==> |frags[i]| == f
  {
    seq(count, i requires 0 <= i < count => RowFits(i, count, f); Row(z, f, i))
  }

  /** Fragment `i` receives exactly the bytes `i * f .. i * f + f - 1` of the buffer. */
  lemma UnpackCell(z: seq<bv8>, count: nat, f: nat, i: nat, t: nat)
    requires count * f <= |z| && i < count && t < f
    ensures i * f + t < |z|
    ensures Unpack(z, count, f)[i][t] == z[i * f + t]
  {
    RowFits(i, count, f);
    assert Unpack(z, count, f)[i] == Row(z, f, i);
  }

  /** Reading back each row block of the packed buffer yields the fragment unchanged. */
  lemma UnpackPack(data: seq<seq<bv8>>, count: nat, f: nat)
    requires FragmentsHold(data, count, f)
    ensures forall i :: 0 <= i < count ==> Unpack(Pack(data, count, f), count, f)[i] == data[i][..f]
  {
    var y := Pack(data, count, f);
    forall i | 0 <= i < count
      ensures Unpack(y, count, f)[i] == data[i][..f]
    {
      forall t | 0 <= t < f
        ensures Unpack(y, count, f)[i][t] == data[i][t]
      {
        UnpackCell(y, count, f, i, t);
        PackCell(data, count, f, i, t);
      }
    }
  }

  /** Offset `t` of the packed row blocks of a buffer holds byte `t` of the buffer. */
  lemma PackUnpackCell(z: seq<bv8>, count: nat, f: nat, t: nat)
    requires |z| == count * f && t < |z|
    ensures FragmentsHold(Unpack(z, count, f), count, f)
    ensures Pack(Unpack(z, count, f), count, f)[t] == z[t]
  {
    var frags := Unpack(z, count, f);
    assert FragmentsHold(frags, count, f);
    OffsetCell(t, count, f);
    var i, j := t / f, t % f;
    PackCell(frags, count, f, i, j);
    UnpackCell(z, count, f, i, j);
    assert i * f + j == t;
  }

  /** Packing the row blocks of a buffer rebuilds the buffer. */
  lemma PackUnpack(z: seq<bv8>, count: nat, f: nat)
    requires |z| == count * f
    ensures FragmentsHold(Unpack(z, count, f), count, f)
    ensures Pack(Unpack(z, count, f), count, f) == z
  {
    var y := Pack(Unpack(z, count, f), count, f);
    forall t | 0 <= t < |z|
      ensures y[t] == z[t]
    {
      PackUnpackCell(z, count, f, t);
    }
  }

  /** The copy-out loop `memcpy(coding_ptrs[i], C + i*w*packetsize, w*packetsize)` for
      `i < m`: the first `f` bytes of each of the first `m` coding buffers are replaced
      by the matching row block of C; everything else is left as it was. */
  method UnpackParity(z: seq<bv8>, m: nat, w: nat, packetsize: nat, coding: seq<seq<bv8>>) returns (coding': seq<seq<bv8>>)
    requires m * (w * packetsize) <= |z|
    requires FragmentsHold(coding, m, w * packetsize)
    ensures |coding'| == |coding|
    ensures forall i :: 0 <= i < m ==> coding'[i] == Unpack(z, m, w * packetsize)[i] + coding[i][w * packetsize..]
    ensures forall i :: m <= i < |coding| ==> coding'[i] == coding[i]
  {
    var f := w * packetsize;
    coding' := coding;
    for i := 0 to m
      invariant |coding'| == |coding|
      invariant forall q :: 0 <= q < i ==> coding'[q] == Unpack(z, m, f)[q] + coding[q][f..]
      invariant forall q :: i <= q < |coding| ==> coding'[q] == coding[q]
    {
      RowFits(i, m, f);
      var offset := i * w * packetsize;
      assert offset == i * f;
      assert Unpack(z, m, f)[i] == z[offset..offset + f];
      coding' := coding'[i := z[offset..offset + f] + coding'[i][f..]];
    }
  }

  /** Every data fragment holds one `w * packetsize` block and the bitmatrix has
      `(m*w) x (k*w)` entries. */
  predicate EncodeInputs(k: nat, m: nat, w: nat, packetsize: nat, bitmatrix: seq<int>, data: seq<seq<bv8>>) {
    (m * w) * (k * w) <= |bitmatrix| && FragmentsHold(data, k, w * packetsize)
  }

  /** The filled A of the bridge. */
  function FilledA(k: nat, m: nat, w: nat, bitmatrix: seq<int>): (x: seq<seq<bv8>>)
    requires (m * w) * (k * w) <= |bitmatrix|
    ensures IsMatrix(x, m * w, k * w)
  {
    Reshape(Fill(bitmatrix, (m * w) * (k * w)), m * w, k * w)
  }

  /** The packed B of the bridge. */
  function PackedB(k: nat, w: nat, packetsize: nat, data: seq<seq<bv8>>): (y: seq<seq<bv8>>)
    requires FragmentsHold(data, k, w * packetsize)
    ensures IsMatrix(y, k * w, packetsize)
  {
    BlockSizes(k, w, packetsize);
    Reshape(Pack(data, k, w * packetsize), k * w, packetsize)
  }

  /** The whole bridge as one function: fill A, pack B, multiply, unpack C. */
  function BitmatrixMultiply(k: nat, m: nat, w: nat, packetsize: nat, bitmatrix: seq<int>, data: seq<seq<bv8>>): (coding: seq<seq<bv8>>)
    requires EncodeInputs(k, m, w, packetsize, bitmatrix, data)
    ensures |coding| == m
    ensures forall i :: 0 <= i < m ==> |coding[i]| == w * packetsize
  {
    BlockSizes(m, w, packetsize);
    var z := Flatten(Multiply(FilledA(k, m, w, bitmatrix), PackedB(k, w, packetsize, data), m * w, packetsize, k * w), m * w, packetsize);
    Unpack(z, m, w * packetsize)
  }

  /** Byte `c` of packet `t % w` of data fragment `t / w`: row `t` of the packed B. */
  function PackedByte(data: seq<seq<bv8>>, k: nat, w: nat, packetsize: nat, t: nat, c: nat): bv8
    requires FragmentsHold(data, k, w * packetsize) && t < k * w && c < packetsize
  {
    OffsetCell(t, k, w);
    CellFits(t % w, c, w, packetsize);
    data[t / w][(t % w) * packetsize + c]
  }

  /** Term `t` of Jerasure's dot product for byte `c` of output packet `row`: the data
      packet byte when bit `(row, t)` of the bitmatrix is set, nothing otherwise. */
  function SelectTerm(bitmatrix: seq<int>, data: seq<seq<bv8>>, k: nat, m: nat, w: nat, packetsize: nat,
                      row: nat, c: nat, t: nat): bv8
    requires EncodeInputs(k, m, w, packetsize, bitmatrix, data)
    requires row < m * w && c < packetsize && t < k * w
  {
    CellFits(row, t, m * w, k * w);
    if bitmatrix[row * (k * w) + t] != 0 then PackedByte(data, k, w, packetsize, t, c) else 0
  }

  /** Jerasure's bitmatrix dot product for byte `c` of output packet `row`: the XOR of the
      data packet bytes whose bitmatrix bit in that row is set, over the first `steps`
      columns. */
  function SelectXor(bitmatrix: seq<int>, data: seq<seq<bv8>>, k: nat, m: nat, w: nat, packetsize: nat,
                     row: nat, c: nat, steps: nat): bv8
    requires EncodeInputs(k, m, w, packetsize, bitmatrix, data)
    requires row < m * w && c < packetsize && steps <= k * w
  {
    if steps == 0 then 0
    else
      SelectXor(bitmatrix, data, k, m, w, packetsize, row, c, steps - 1)
      ^ SelectTerm(bitmatrix, data, k, m, w, packetsize, row, c, steps - 1)
  }

  /** Row `t` of B, column `c`, is byte `(t % w) * packetsize + c` of block `t / w`. */
  lemma PacketOffset(t: nat, w: nat, packetsize: nat, c: nat)
    requires w > 0 && c < packetsize
    ensures (t % w) * packetsize + c < w * packetsize
    ensures t * packetsize + c == (t / w) * (w * packetsize) + ((t % w) * packetsize + c)
  {
    var d, b := t / w, t % w;
    CellFits(b, c, w, packetsize);
    assert t == d * w + b;
    assert t * packetsize == (d * w + b) * packetsize;
    assert (d * w + b) * packetsize == d * w * packetsize + b * packetsize;
    assert d * w * packetsize == d * (w * packetsize);
  }

  /** Row `t` of the reshaped packed buffer is packet `t % w` of fragment `t / w`. */
  lemma PackedRow(data: seq<seq<bv8>>, k: nat, w: nat, packetsize: nat, t: nat, c: nat)
    requires FragmentsHold(data, k, w * packetsize) && t < k * w && c < packetsize
    ensures |Pack(data, k, w * packetsize)| == (k * w) * packetsize
    ensures Reshape(Pack(data, k, w * packetsize), k * w, packetsize)[t][c] == PackedByte(data, k, w, packetsize, t, c)
  {
    BlockSizes(k, w, packetsize);
    ReshapeCell(Pack(data, k, w * packetsize), k * w, packetsize, t, c);
    PackedOffset(data, k, w, packetsize, t, c);
  }

  /** Offset `t * packetsize + c` of the packed buffer is packet byte `(t, c)`. */
  lemma PackedOffset(data: seq<seq<bv8>>, k: nat, w: nat, packetsize: nat, t: nat, c: nat)
    requires FragmentsHold(data, k, w * packetsize) && t < k * w && c < packetsize
    ensures t * packetsize + c < |Pack(data, k, w * packetsize)|
    ensures Pack(data, k, w * packetsize)[t * packetsize + c] == PackedByte(data, k, w, packetsize, t, c)
  {
    OffsetCell(t, k, w);
    PacketOffset(t, w, packetsize, c);
    PackCell(data, k, w * packetsize, t / w, (t % w) * packetsize + c);
  }

  /** Cell `(row, t)` of the filled A is the fill of bitmatrix entry `row*k*w + t`. */
  lemma FilledCell(bitmatrix: seq<int>, k: nat, m: nat, w: nat, row: nat, t: nat)
    requires (m * w) * (k * w) <= |bitmatrix| && row < m * w && t < k * w
    ensures row * (k * w) + t < |bitmatrix|
    ensures Reshape(Fill(bitmatrix, (m * w) * (k * w)), m * w, k * w)[row][t] == FillEntry(bitmatrix[row * (k * w) + t])
  {
    ReshapeCell(Fill(bitmatrix, (m * w) * (k * w)), m * w, k * w, row, t);
  }

  /** A filled entry selects a byte exactly when the bitmatrix entry is nonzero. */
  lemma FillEntrySelects(x: bv8, v: int, y: bv8)
    requires x == FillEntry(v)
    ensures x & y == (if v != 0 then y else 0)
  {
    MaskSelects(v != 0, y);
  }

  /** One term of the kernel's reduction: the filled mask of bit `(row, t)` selects byte
      `c` of row `t` of B. */
  lemma TermSelects(k: nat, m: nat, w: nat, packetsize: nat, bitmatrix: seq<int>, data: seq<seq<bv8>>,
                    row: nat, c: nat, t: nat)
    requires EncodeInputs(k, m, w, packetsize, bitmatrix, data)
    requires row < m * w && c < packetsize && t < k * w
    ensures FilledA(k, m, w, bitmatrix)[row][t] & PackedB(k, w, packetsize, data)[t][c]
         == SelectTerm(bitmatrix, data, k, m, w, packetsize, row, c, t)
  {
    FilledCell(bitmatrix, k, m, w, row, t);
    PackedRow(data, k, w, packetsize, t, c);
    var x := FilledA(k, m, w, bitmatrix)[row][t];
    var y := PackedB(k, w, packetsize, data)[t][c];
    FillEntrySelects(x, bitmatrix[row * (k * w) + t], y);
  }

  /** A kernel reduction whose every term is the matching dot-product term computes the
      dot product. */
  lemma {:induction false} AccIsSelectXor(x: seq<seq<bv8>>, y: seq<seq<bv8>>, k: nat, m: nat, w: nat, packetsize: nat,
                                          bitmatrix: seq<int>, data: seq<seq<bv8>>, row: nat, c: nat, steps: nat)
    requires EncodeInputs(k, m, w, packetsize, bitmatrix, data)
    requires Operands(x, y, m * w, packetsize, k * w)
    requires row < m * w && c < packetsize && steps <= k * w
    requires forall t :: 0 <= t < k * w ==> x[row][t] & y[t][c] == SelectTerm(bitmatrix, data, k, m, w, packetsize, row, c, t)
    ensures Acc(x, y, m * w, packetsize, k * w, row, c, steps) == SelectXor(bitmatrix, data, k, m, w, packetsize, row, c, steps)
  {
    if steps > 0 {
      AccIsSelectXor(x, y, k, m, w, packetsize, bitmatrix, data, row, c, steps - 1);
    }
  }

  /** Byte `r * packetsize + c` of row block `i` is byte `c` of row `i * w + r` of C. */
  lemma CodingOffset(i: nat, r: nat, c: nat, m: nat, w: nat, packetsize: nat)
    requires i < m && r < w && c < packetsize
    ensures i * w + r < m * w && r * packetsize + c < w * packetsize
    ensures i * (w * packetsize) + (r * packetsize + c) == (i * w + r) * packetsize + c
  {
    CellFits(i, r, m, w);
    CellFits(r, c, w, packetsize);
    assert i * (w * packetsize) == i * w * packetsize;
    assert (i * w + r) * packetsize == i * w * packetsize + r * packetsize;
  }

  /** Byte `c` of packet `r` of coding fragment `i` as the bridge writes it. */
  function CodingByte(k: nat, m: nat, w: nat, packetsize: nat, bitmatrix: seq<int>, data: seq<seq<bv8>>,
                      i: nat, r: nat, c: nat): bv8
    requires EncodeInputs(k, m, w, packetsize, bitmatrix, data)
    requires i < m && r < w && c < packetsize
  {
    CodingOffset(i, r, c, m, w, packetsize);
    BitmatrixMultiply(k, m, w, packetsize, bitmatrix, data)[i][r * packetsize + c]
  }

  /** Cell `(i*w + r, c)` of the kernel's product of the filled A and the packed B. */
  function ProductCell(k: nat, m: nat, w: nat, packetsize: nat, bitmatrix: seq<int>, data: seq<seq<bv8>>,
                       i: nat, r: nat, c: nat): bv8
    requires EncodeInputs(k, m, w, packetsize, bitmatrix, data)
    requires i < m && r < w && c < packetsize
  {
    CodingOffset(i, r, c, m, w, packetsize);
    Multiply(FilledA(k, m, w, bitmatrix), PackedB(k, w, packetsize, data), m * w, packetsize, k * w)[i * w + r][c]
  }

  /** Jerasure's value for byte `c` of packet `r` of coding fragment `i`: the dot product
      of bitmatrix row `i*w + r` with the data packets. */
  function DotProduct(k: nat, m: nat, w: nat, packetsize: nat, bitmatrix: seq<int>, data: seq<seq<bv8>>,
                      i: nat, r: nat, c: nat): bv8
    requires EncodeInputs(k, m, w, packetsize, bitmatrix, data)
    requires i < m && r < w && c < packetsize
  {
    CodingOffset(i, r, c, m, w, packetsize);
    SelectXor(bitmatrix, data, k, m, w, packetsize, i * w + r, c, k * w)
  }

  /** Byte `c` of packet `r` of coding fragment `i` is cell `(i*w + r, c)` of the product. */
  lemma CodingByteIsProductCell(k: nat, m: nat, w: nat, packetsize: nat, bitmatrix: seq<int>,
                                data: seq<seq<bv8>>, i: nat, r: nat, c: nat)
    requires EncodeInputs(k, m, w, packetsize, bitmatrix, data)
    requires i < m && r < w && c < packetsize
    ensures CodingByte(k, m, w, packetsize, bitmatrix, data, i, r, c) == ProductCell(k, m, w, packetsize, bitmatrix, data, i, r, c)
  {
    var product := Multiply(FilledA(k, m, w, bitmatrix), PackedB(k, w, packetsize, data), m * w, packetsize, k * w);
    var z := Flatten(product, m * w, packetsize);
    BlockSizes(m, w, packetsize);
    assert BitmatrixMultiply(k, m, w, packetsize, bitmatrix, data) == Unpack(z, m, w * packetsize);
    CodingOffset(i, r, c, m, w, packetsize);
    UnpackCell(z, m, w * packetsize, i, r * packetsize + c);
    FlattenCell(product, m * w, packetsize, i * w + r, c);
  }

  /** Every term of the kernel's reduction over the filled A and the packed B, in row
      `row` and column `c`, is the matching dot-product term. */
  lemma FilledPackedTerms(k: nat, m: nat, w: nat, packetsize: nat, bitmatrix: seq<int>,
                          data: seq<seq<bv8>>, row: nat, c: nat)
    requires EncodeInputs(k, m, w, packetsize, bitmatrix, data)
    requires row < m * w && c < packetsize
    ensures forall t :: 0 <= t < k * w ==>
      FilledA(k, m, w, bitmatrix)[row][t] & PackedB(k, w, packetsize, data)[t][c]
      == SelectTerm(bitmatrix, data, k, m, w, packetsize, row, c, t)
  {
    forall t | 0 <= t < k * w
      ensures FilledA(k, m, w, bitmatrix)[row][t] & PackedB(k, w, packetsize, data)[t][c]
           == SelectTerm(bitmatrix, data, k, m, w, packetsize, row, c, t)
    {
      TermSelects(k, m, w, packetsize, bitmatrix, data, row, c, t);
    }
  }

  /** End to end: byte `r * packetsize + c` of coding fragment `i` (byte `c` of its packet
      `r`) is the XOR of byte `c` of every data packet whose bit is set in row `i*w + r`
      of the bitmatrix, as Jerasure's bitmatrix encode defines it. */
  lemma BitmatrixMultiplyComputesDotProduct(k: nat, m: nat, w: nat, packetsize: nat, bitmatrix: seq<int>,
                                            data: seq<seq<bv8>>, i: nat, r: nat, c: nat)
    requires EncodeInputs(k, m, w, packetsize, bitmatrix, data)
    requires i < m && r < w && c < packetsize
    ensures CodingByte(k, m, w, packetsize, bitmatrix, data, i, r, c) == DotProduct(k, m, w, packetsize, bitmatrix, data, i, r, c)
  {
    CodingByteIsProductCell(k, m, w, packetsize, bitmatrix, data, i, r, c);
    CodingOffset(i, r, c, m, w, packetsize);
    var x, y := FilledA(k, m, w, bitmatrix), PackedB(k, w, packetsize, data);
    FilledPackedTerms(k, m, w, packetsize, bitmatrix, data, i * w + r, c);
    AccIsSelectXor(x, y, k, m, w, packetsize, bitmatrix, data, i * w + r, c, k * w);
  }

  /** `tvm_ec_bitmatrix_multiply` with the loaded schedule taken to be the kernel of
      `ECModule.main`: fill A, pack B, multiply, copy the parity row blocks out. The
      previous contents of the three freshly allocated buffers are `scratchA`,
      `scratchB`; C is written in full by the kernel. */
  method TvmEcBitmatrixMultiply(k: nat, m: nat, w: nat, bitmatrix: seq<int>, data: seq<seq<bv8>>,
                                coding: seq<seq<bv8>>, packetsize: nat, scratchA: seq<bv8>, scratchB: seq<bv8>)
    returns (coding': seq<seq<bv8>>)
    requires EncodeInputs(k, m, w, packetsize, bitmatrix, data)
    requires FragmentsHold(coding, m, w * packetsize)
    requires |scratchA| == (m * w) * (k * w) && |scratchB| == k * (w * packetsize)
    ensures |coding'| == |coding|
    ensures forall i :: 0 <= i < m ==>
      coding'[i] == BitmatrixMultiply(k, m, w, packetsize, bitmatrix, data)[i] + coding[i][w * packetsize..]
    ensures forall i :: m <= i < |coding| ==> coding'[i] == coding[i]
  {
    var shapes := ShapesFor(k, m, w, packetsize);
    var filled := FillBitmatrix(bitmatrix, k, m, w, scratchA);
    var packed := PackData(data, k, w, packetsize, scratchB);
    var x := Reshape(filled, shapes.a.rows, shapes.a.cols);
    var y := Reshape(packed, shapes.b.rows, shapes.b.cols);
    var product := MultiplyAccumulate(x, y, shapes.c.rows, shapes.c.cols, shapes.a.cols);
    assert product == Multiply(x, y, shapes.c.rows, shapes.c.cols, shapes.a.cols) by {
      var reference := Multiply(x, y, shapes.c.rows, shapes.c.cols, shapes.a.cols);
      assert forall i :: 0 <= i < shapes.c.rows ==> product[i] == reference[i];
    }
    var z := Flatten(product, shapes.c.rows, shapes.c.cols);
    coding' := UnpackParity(z, m, w, packetsize, coding);
  }

  /** The schedule the bridge loads for these numbers: the name is built from `m`,
      `packetsize` and `k` only. */
  function ScheduleFile(k: nat, m: nat, w: nat, packetsize: nat): (name: string)
    ensures ScheduleName.ParseFileName(name) == ScheduleName.Some(ScheduleName.ScheduleKey(m, packetsize, k))
  {
    ScheduleName.ParseFileNameRoundTrip(ScheduleName.ScheduleKey(m, packetsize, k));
    ScheduleName.FileName(ScheduleName.ScheduleKey(m, packetsize, k))
  }

  /** Two symbol widths give different operand shapes but load the same schedule file. */
  lemma ScheduleFileOmitsWidth(k: nat, m: nat, w: nat, w': nat, packetsize: nat)
    requires m > 0 && w != w'
    ensures ShapesFor(k, m, w, packetsize) != ShapesFor(k, m, w', packetsize)
    ensures ScheduleFile(k, m, w, packetsize) == ScheduleFile(k, m, w', packetsize)
  {
    MultipleBound(w - w', m);
  }
}
