/** The bitwise multiply-accumulate kernel `C[i,j] = XOR_k (A[i,k] & B[k,j])` of
    the fixed-shape TensorIR module (ec/bitmatrix.py), with its algebra: order
    independence of the reduction, zero rows, selector rows, linearity in B and
    cell locality. */
module Kernel {
  import opened Bytes
  import opened XorReduce
  import opened Matrix

  /** Shapes declared by the TensorIR module: A is 4 x 8, B is 8 x 65536, C is 4 x 65536. */
  const ModuleRows: nat := 4
  const ModuleReduction: nat := 8
  const ModuleCols: nat := 65536

  /** A is `m x k` and B is `k x n`: the reduction runs over the shared dimension `k`. */
  predicate Operands(a: seq<seq<bv8>>, b: seq<seq<bv8>>, m: nat, n: nat, k: nat) {
    IsMatrix(a, m, k) && IsMatrix(b, k, n)
  }

  /** Cell `(i, j)` after the first `steps` iterations of the reduction axis: the
      cell starts at the reducer's identity 0 and each step XORs in `A[i,s] & B[s,j]`. */
  function Acc(a: seq<seq<bv8>>, b: seq<seq<bv8>>, m: nat, n: nat, k: nat, i: nat, j: nat, steps: nat): bv8
    requires Operands(a, b, m, n, k) && i < m && j < n && steps <= k
  {
    if steps == 0 then Identity
    else Combine(Acc(a, b, m, n, k, i, j, steps - 1), a[i][steps - 1] & b[steps - 1][j])
  }

  /** The `k` terms the reduction of cell `(i, j)` combines, in loop order. */
  function Terms(a: seq<seq<bv8>>, b: seq<seq<bv8>>, m: nat, n: nat, k: nat, i: nat, j: nat, steps: nat): (t: seq<bv8>)
    requires Operands(a, b, m, n, k) && i < m && j < n && steps <= k
    ensures |t| == steps
  {
    seq(steps, s requires 0 <= s < steps => a[i][s] & b[s][j])
  }

  /** The whole product: every cell fully reduced over `k`. */
  function Multiply(a: seq<seq<bv8>>, b: seq<seq<bv8>>, m: nat, n: nat, k: nat): (c: seq<seq<bv8>>)
    requires Operands(a, b, m, n, k)
    ensures IsMatrix(c, m, n)
  {
    seq(m, i requires 0 <= i < m => seq(n, j requires 0 <= j < n => Acc(a, b, m, n, k, i, j, k)))
  }

  /** The loop nest `for i, j, k in T.grid(m, n, k)` with the block's init and update. */
  method MultiplyAccumulate(a: seq<seq<bv8>>, b: seq<seq<bv8>>, m: nat, n: nat, k: nat) returns (c: seq<seq<bv8>>)
    requires Operands(a, b, m, n, k)
    ensures IsMatrix(c, m, n)
    ensures forall i, j :: 0 <= i < m && 0 <= j < n ==> c[i][j] == Acc(a, b, m, n, k, i, j, k)
  {
    c := [];
    for i := 0 to m
      invariant |c| == i
      invariant forall r :: 0 <= r < i ==> |c[r]| == n
      invariant forall r, j :: 0 <= r < i && 0 <= j < n ==> c[r][j] == Acc(a, b, m, n, k, r, j, k)
    {
      var row: seq<bv8> := [];
      for j := 0 to n
        invariant |row| == j
        invariant forall q :: 0 <= q < j ==> row[q] == Acc(a, b, m, n, k, i, q, k)
      {
        var cell: bv8 := 0;
        for s := 0 to k
          invariant cell == Acc(a, b, m, n, k, i, j, s)
        {
          cell := cell ^ (a[i][s] & b[s][j]);
        }
        row := row + [cell];
      }
      c := c + [row];
    }
  }

  /** `ECModule.main`: the same loop nest at the module's fixed shapes. */
  method ModuleMain(a: seq<seq<bv8>>, b: seq<seq<bv8>>) returns (c: seq<seq<bv8>>)
    requires IsMatrix(a, ModuleRows, ModuleReduction) && IsMatrix(b, ModuleReduction, ModuleCols)
    ensures IsMatrix(c, ModuleRows, ModuleCols)
    ensures forall i, j :: 0 <= i < ModuleRows && 0 <= j < ModuleCols ==>
      c[i][j] == Acc(a, b, ModuleRows, ModuleCols, ModuleReduction, i, j, ModuleReduction)
  {
    c := MultiplyAccumulate(a, b, ModuleRows, ModuleCols, ModuleReduction);
  }

  /** The accumulated cell is the reducer applied to the terms in loop order. */
  lemma {:induction false} AccIsXorOfTerms(a: seq<seq<bv8>>, b: seq<seq<bv8>>, m: nat, n: nat, k: nat, i: nat, j: nat, steps: nat)
    requires Operands(a, b, m, n, k) && i < m && j < n && steps <= k
    ensures Acc(a, b, m, n, k, i, j, steps) == XorOf(Terms(a, b, m, n, k, i, j, steps))
  {
    if steps > 0 {
      AccIsXorOfTerms(a, b, m, n, k, i, j, steps - 1);
      assert Terms(a, b, m, n, k, i, j, steps)[..steps - 1] == Terms(a, b, m, n, k, i, j, steps - 1);
    }
  }

  /** Combining the `k` terms of a cell in any other order gives the same cell: the
      result does not depend on how the reduction axis is iterated or split. */
  lemma ReductionOrderIrrelevant(a: seq<seq<bv8>>, b: seq<seq<bv8>>, m: nat, n: nat, k: nat, i: nat, j: nat, reordered: seq<bv8>)
    requires Operands(a, b, m, n, k) && i < m && j < n
    requires multiset(reordered) == multiset(Terms(a, b, m, n, k, i, j, k))
    ensures XorOf(reordered) == Multiply(a, b, m, n, k)[i][j]
  {
    AccIsXorOfTerms(a, b, m, n, k, i, j, k);
    XorOfPermutation(reordered, Terms(a, b, m, n, k, i, j, k));
  }

  /** Accumulating over an all-zero row of A never leaves 0. */
  lemma {:induction false} ZeroRowAcc(a: seq<seq<bv8>>, b: seq<seq<bv8>>, m: nat, n: nat, k: nat, i: nat, j: nat, steps: nat)
    requires Operands(a, b, m, n, k) && i < m && j < n && steps <= k
    requires forall s :: 0 <= s < k ==> a[i][s] == 0
    ensures Acc(a, b, m, n, k, i, j, steps) == 0
  {
    if steps > 0 {
      ZeroRowAcc(a, b, m, n, k, i, j, steps - 1);
    }
  }

  /** A row of A that is all `0x00` produces a row of zeros in C. */
  lemma ZeroRowGivesZeroRow(a: seq<seq<bv8>>, b: seq<seq<bv8>>, m: nat, n: nat, k: nat, i: nat)
    requires Operands(a, b, m, n, k) && i < m
    requires forall s :: 0 <= s < k ==> a[i][s] == 0
    ensures forall j :: 0 <= j < n ==> Multiply(a, b, m, n, k)[i][j] == 0
  {
    forall j | 0 <= j < n
      ensures Multiply(a, b, m, n, k)[i][j] == 0
    {
      ZeroRowAcc(a, b, m, n, k, i, j, k);
    }
  }

  /** With an empty reduction axis every cell keeps its initial value 0. */
  lemma EmptyReductionIsZero(a: seq<seq<bv8>>, b: seq<seq<bv8>>, m: nat, n: nat)
    requires Operands(a, b, m, n, 0)
    ensures forall i, j :: 0 <= i < m && 0 <= j < n ==> Multiply(a, b, m, n, 0)[i][j] == 0
  {
  }

  /** A row of A that is `0xFF` at `k0` and `0x00` elsewhere selects row `k0` of B. */
  lemma {:induction false} SelectorRowAcc(a: seq<seq<bv8>>, b: seq<seq<bv8>>, m: nat, n: nat, k: nat, i: nat, j: nat, k0: nat, steps: nat)
    requires Operands(a, b, m, n, k) && i < m && j < n && k0 < k && steps <= k
    requires forall s :: 0 <= s < k ==> a[i][s] == (if s == k0 then 0xFF else 0x00)
    ensures Acc(a, b, m, n, k, i, j, steps) == (if k0 < steps then b[k0][j] else 0)
  {
    if steps > 0 {
      SelectorRowAcc(a, b, m, n, k, i, j, k0, steps - 1);
      MaskSelects(steps - 1 == k0, b[steps - 1][j]);
    }
  }

  /** The selector case: C[i, j] == B[k0, j] for every column. */
  lemma SelectorRow(a: seq<seq<bv8>>, b: seq<seq<bv8>>, m: nat, n: nat, k: nat, i: nat, k0: nat)
    requires Operands(a, b, m, n, k) && i < m && k0 < k
    requires forall s :: 0 <= s < k ==> a[i][s] == (if s == k0 then 0xFF else 0x00)
    ensures forall j :: 0 <= j < n ==> Multiply(a, b, m, n, k)[i][j] == b[k0][j]
  {
    forall j | 0 <= j < n
      ensures Multiply(a, b, m, n, k)[i][j] == b[k0][j]
    {
      SelectorRowAcc(a, b, m, n, k, i, j, k0, k);
    }
  }

  /** The expanded identity bitmatrix: `0xFF` on the diagonal, `0x00` elsewhere. */
  predicate IsIdentityMask(a: seq<seq<bv8>>, size: nat) {
    IsMatrix(a, size, size) &&
    forall i, s :: 0 <= i < size && 0 <= s < size ==> a[i][s] == (if i == s then 0xFF else 0x00)
  }

  /** The identity bitmatrix reproduces B unchanged. */
  lemma IdentityKernel(a: seq<seq<bv8>>, b: seq<seq<bv8>>, k: nat, n: nat)
    requires IsIdentityMask(a, k) && IsMatrix(b, k, n)
    ensures Multiply(a, b, k, n, k) == b
  {
    var c := Multiply(a, b, k, n, k);
    forall i | 0 <= i < k
      ensures c[i] == b[i]
    {
      SelectorRow(a, b, k, n, k, i, i);
    }
  }

  /** One step of the linearity induction: if the partial reductions over the first
      `steps - 1` terms are linear, so are those over `steps` terms. */
  lemma AccLinearStep(a: seq<seq<bv8>>, b: seq<seq<bv8>>, b1: seq<seq<bv8>>, b2: seq<seq<bv8>>,
                      m: nat, n: nat, k: nat, i: nat, j: nat, steps: nat)
    requires Operands(a, b, m, n, k) && Operands(a, b1, m, n, k) && Operands(a, b2, m, n, k)
    requires i < m && j < n && 0 < steps <= k
    requires b[steps - 1][j] == b1[steps - 1][j] ^ b2[steps - 1][j]
    requires Acc(a, b, m, n, k, i, j, steps - 1) == Acc(a, b1, m, n, k, i, j, steps - 1) ^ Acc(a, b2, m, n, k, i, j, steps - 1)
    ensures Acc(a, b, m, n, k, i, j, steps) == Acc(a, b1, m, n, k, i, j, steps) ^ Acc(a, b2, m, n, k, i, j, steps)
  {
  }

  /** AND distributes over XOR, one accumulation step at a time. */
  lemma {:induction false} AccLinear(a: seq<seq<bv8>>, b1: seq<seq<bv8>>, b2: seq<seq<bv8>>, m: nat, n: nat, k: nat, i: nat, j: nat, steps: nat)
    requires Operands(a, b1, m, n, k) && Operands(a, b2, m, n, k) && i < m && j < n && steps <= k
    ensures Operands(a, XorCells(b1, b2, k, n), m, n, k)
    ensures Acc(a, XorCells(b1, b2, k, n), m, n, k, i, j, steps)
         == Acc(a, b1, m, n, k, i, j, steps) ^ Acc(a, b2, m, n, k, i, j, steps)
  {
    if steps > 0 {
      AccLinear(a, b1, b2, m, n, k, i, j, steps - 1);
      AccLinearStep(a, XorCells(b1, b2, k, n), b1, b2, m, n, k, i, j, steps);
    }
  }

  /** The kernel is linear in B: C(A, B1 ^ B2) == C(A, B1) ^ C(A, B2). */
  lemma LinearInB(a: seq<seq<bv8>>, b1: seq<seq<bv8>>, b2: seq<seq<bv8>>, m: nat, n: nat, k: nat)
    requires Operands(a, b1, m, n, k) && Operands(a, b2, m, n, k)
    ensures Operands(a, XorCells(b1, b2, k, n), m, n, k)
    ensures Multiply(a, XorCells(b1, b2, k, n), m, n, k)
         == XorCells(Multiply(a, b1, m, n, k), Multiply(a, b2, m, n, k), m, n)
  {
    var lhs := Multiply(a, XorCells(b1, b2, k, n), m, n, k);
    var rhs := XorCells(Multiply(a, b1, m, n, k), Multiply(a, b2, m, n, k), m, n);
    forall i, j | 0 <= i < m && 0 <= j < n
      ensures lhs[i][j] == rhs[i][j]
    {
      AccLinear(a, b1, b2, m, n, k, i, j, k);
    }
    forall i | 0 <= i < m
      ensures lhs[i] == rhs[i]
    {
    }
  }

  /** Cell `(i, j)` reads only row `i` of A and column `j` of B. */
  lemma {:induction false} AccLocality(a: seq<seq<bv8>>, b: seq<seq<bv8>>, a': seq<seq<bv8>>, b': seq<seq<bv8>>,
                                       m: nat, n: nat, k: nat, i: nat, j: nat, steps: nat)
    requires Operands(a, b, m, n, k) && Operands(a', b', m, n, k) && i < m && j < n && steps <= k
    requires a[i] == a'[i]
    requires forall s :: 0 <= s < k ==> b[s][j] == b'[s][j]
    ensures Acc(a, b, m, n, k, i, j, steps) == Acc(a', b', m, n, k, i, j, steps)
  {
    if steps > 0 {
      AccLocality(a, b, a', b', m, n, k, i, j, steps - 1);
    }
  }

  /** Operands that agree on row `i` of A and column `j` of B give the same C[i, j],
      whatever the other cells hold. */
  lemma CellLocality(a: seq<seq<bv8>>, b: seq<seq<bv8>>, a': seq<seq<bv8>>, b': seq<seq<bv8>>,
                     m: nat, n: nat, k: nat, i: nat, j: nat)
    requires Operands(a, b, m, n, k) && Operands(a', b', m, n, k) && i < m && j < n
    requires a[i] == a'[i]
    requires forall s :: 0 <= s < k ==> b[s][j] == b'[s][j]
    ensures Multiply(a, b, m, n, k)[i][j] == Multiply(a', b', m, n, k)[i][j]
  {
    AccLocality(a, b, a', b', m, n, k, i, j, k);
  }
}
