/** Byte matrices as sequences of rows, and the row-major flat buffers the
    deployed kernel reads and writes. */
module Matrix {

  /** `a` has exactly `rows` rows of exactly `cols` cells each. */
  predicate IsMatrix<T>(a: seq<seq<T>>, rows: nat, cols: nat) {
    |a| == rows && forall i :: 0 <= i < rows ==> |a[i]| == cols
  }

  /** Cell-wise XOR of two matrices of the same shape. */
  function XorCells(a: seq<seq<bv8>>, b: seq<seq<bv8>>, rows: nat, cols: nat): (r: seq<seq<bv8>>)
    requires IsMatrix(a, rows, cols) && IsMatrix(b, rows, cols)
    ensures IsMatrix(r, rows, cols)
  {
    seq(rows, i requires 0 <= i < rows => seq(cols, j requires 0 <= j < cols => a[i][j] ^ b[i][j]))
  }

  /** Row `i` of a row-major layout with `cols` cells per row ends inside a buffer of `rows` rows. */
  lemma RowFits(i: nat, rows: nat, cols: nat)
    requires i < rows
    ensures i * cols + cols <= rows * cols
  {
    assert (rows - i) * cols >= cols by {
      assert rows - i >= 1;
    }
  }

  /** Flat index `i * cols + j` of cell `(i, j)` lies inside the buffer. */
  lemma CellFits(i: nat, j: nat, rows: nat, cols: nat)
    requires i < rows && j < cols
    ensures i * cols + j < rows * cols
  {
    RowFits(i, rows, cols);
  }

  /** Row-major concatenation of the rows of a matrix. */
  function Flatten(a: seq<seq<bv8>>, rows: nat, cols: nat): (r: seq<bv8>)
    requires IsMatrix(a, rows, cols)
    ensures |r| == rows * cols
  {
    if rows == 0 then [] else Flatten(a[..rows - 1], rows - 1, cols) + a[rows - 1]
  }

  /** Row `i` of a flat row-major buffer with `cols` cells per row. */
  function Row(flat: seq<bv8>, cols: nat, i: nat): (r: seq<bv8>)
    requires i * cols + cols <= |flat|
    ensures |r| == cols
    ensures forall j :: 0 <= j < cols ==> r[j] == flat[i * cols + j]
  {
    flat[i * cols..i * cols + cols]
  }

  /** Views a flat row-major buffer as a matrix of `rows` rows of `cols` cells. */
  function Reshape(flat: seq<bv8>, rows: nat, cols: nat): (r: seq<seq<bv8>>)
    requires |flat| == rows * cols
    ensures IsMatrix(r, rows, cols)
  {
    seq(rows, i requires 0 <= i < rows => RowFits(i, rows, cols); Row(flat, cols, i))
  }

  /** Cell `(i, j)` of a flattened matrix sits at offset `i * cols + j`. */
  lemma {:induction false} FlattenCell(a: seq<seq<bv8>>, rows: nat, cols: nat, i: nat, j: nat)
    requires IsMatrix(a, rows, cols) && i < rows && j < cols
    ensures i * cols + j < rows * cols
    ensures Flatten(a, rows, cols)[i * cols + j] == a[i][j]
  {
    CellFits(i, j, rows, cols);
    var front := Flatten(a[..rows - 1], rows - 1, cols);
    if i < rows - 1 {
      FlattenCell(a[..rows - 1], rows - 1, cols, i, j);
    } else {
      assert |front| == i * cols;
    }
  }

  /** Cell `(i, j)` of a reshaped buffer is the byte at offset `i * cols + j`. */
  lemma ReshapeCell(flat: seq<bv8>, rows: nat, cols: nat, i: nat, j: nat)
    requires |flat| == rows * cols && i < rows && j < cols
    ensures i * cols + j < |flat|
    ensures Reshape(flat, rows, cols)[i][j] == flat[i * cols + j]
  {
    RowFits(i, rows, cols);
    var row := Row(flat, cols, i);
    assert Reshape(flat, rows, cols)[i] == row;
    assert row[j] == flat[i * cols + j];
  }

  /** Every offset of a buffer of `rows` rows of `cols` cells names one cell `(t / cols, t % cols)`. */
  lemma OffsetCell(t: nat, rows: nat, cols: nat)
    requires t < rows * cols
    ensures cols > 0
    ensures t / cols < rows && t % cols < cols
    ensures t == (t / cols) * cols + t % cols
  {
  }

  /** Reshaping then flattening gives back the buffer. */
  lemma FlattenReshape(flat: seq<bv8>, rows: nat, cols: nat)
    requires |flat| == rows * cols
    ensures Flatten(Reshape(flat, rows, cols), rows, cols) == flat
  {
    var r := Reshape(flat, rows, cols);
    var f := Flatten(r, rows, cols);
    forall t | 0 <= t < |flat|
      ensures f[t] == flat[t]
    {
      OffsetCell(t, rows, cols);
      var i, j := t / cols, t % cols;
      FlattenCell(r, rows, cols, i, j);
      ReshapeCell(flat, rows, cols, i, j);
    }
  }

  /** Flattening then reshaping gives back the matrix. */
  lemma ReshapeFlatten(a: seq<seq<bv8>>, rows: nat, cols: nat)
    requires IsMatrix(a, rows, cols)
    ensures Reshape(Flatten(a, rows, cols), rows, cols) == a
  {
    var f := Flatten(a, rows, cols);
    var r := Reshape(f, rows, cols);
    forall i | 0 <= i < rows
      ensures r[i] == a[i]
    {
      forall j | 0 <= j < cols
        ensures r[i][j] == a[i][j]
      {
        FlattenCell(a, rows, cols, i, j);
        ReshapeCell(f, rows, cols, i, j);
      }
    }
  }

  /** Euclidean division is unique: `q * w + r` with `0 <= r < w` divides to `q` remainder `r`. */
  lemma DivModUnique(x: int, w: int, q: int, r: int)
    requires w > 0 && 0 <= r < w && x == q * w + r
    ensures x / w == q && x % w == r
  {
    var q', r' := x / w, x % w;
    assert (q - q') * w == r' - r;
    MultipleBound(q - q', w);
  }

  /** A nonzero multiple of `w` is at least `w` away from 0. */
  lemma MultipleBound(d: int, w: int)
    requires w >= 0
    ensures d >= 1 ==> d * w >= w
    ensures d <= -1 ==> d * w <= -w
  {
    if d >= 1 {
      assert d * w == w + (d - 1) * w;
    } else if d <= -1 {
      assert d * w == -w + (d + 1) * w;
    }
  }
}
