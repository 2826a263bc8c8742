/** The autoscheduled `bitmatrix` workload (ec/bitmatrix_autoschedule.py): the
    kernel product `bitmul` followed by the popcount parity of every cell, and the
    NumPy reference `np_bitmatrix` the workload is compared against. */
module Autoschedule {
  import opened Bytes
  import opened XorReduce
  import opened Matrix
  import opened Kernel

  /** `out[i, j] = popcount(bitmul[i, j]) & 1` over the `M x N` product `bitmul`. */
  function Workload(a: seq<seq<bv8>>, b: seq<seq<bv8>>, m: nat, n: nat, k: nat): (out: seq<seq<bv8>>)
    requires Operands(a, b, m, n, k)
    ensures IsMatrix(out, m, n)
    ensures forall i, j :: 0 <= i < m && 0 <= j < n ==> out[i][j] == 0 || out[i][j] == 1
  {
    var bitmul := Multiply(a, b, m, n, k);
    seq(m, i requires 0 <= i < m => seq(n, j requires 0 <= j < n => Parity(bitmul[i][j])))
  }

  /** One step of the reference loop, `out = xor(A[i,s] & B[s,j], out)`, advances the
      accumulation by one term even though the operands come in the other order. */
  lemma ReferenceStep(a: seq<seq<bv8>>, b: seq<seq<bv8>>, m: nat, n: nat, k: nat, i: nat, j: nat, s: nat, cell: bv8)
    requires Operands(a, b, m, n, k) && i < m && j < n && s < k
    requires cell == Acc(a, b, m, n, k, i, j, s)
    ensures (a[i][s] & b[s][j]) ^ cell == Acc(a, b, m, n, k, i, j, s + 1)
  {
    CombineIsCommutativeMonoid(cell, a[i][s] & b[s][j], 0);
  }

  /** The body of `np_bitmatrix` for one cell: XOR-accumulate `A[i, s] & B[s, j]` into the
      zero cell `out[i, j]` for every `s < k`, then keep only the popcount parity. */
  method ReferenceCell(out: seq<seq<bv8>>, i: nat, j: nat, a: seq<seq<bv8>>, b: seq<seq<bv8>>, m: nat, n: nat, k: nat)
    returns (out': seq<seq<bv8>>)
    requires Operands(a, b, m, n, k) && IsMatrix(out, m, n) && i < m && j < n
    requires out[i][j] == 0
    ensures out' == out[i := out[i][j := Parity(Acc(a, b, m, n, k, i, j, k))]]
  {
    out' := out;
    assert out[i][j := 0] == out[i];
    for s := 0 to k
      invariant out' == out[i := out[i][j := Acc(a, b, m, n, k, i, j, s)]]
    {
      var cell := out'[i][j];
      ReferenceStep(a, b, m, n, k, i, j, s, cell);
      var next := (a[i][s] & b[s][j]) ^ cell;
      assert out'[i][j := next] == out[i][j := next];
      out' := out'[i := out'[i][j := next]];
    }
    var result := Parity(Acc(a, b, m, n, k, i, j, k));
    assert out'[i][j := result] == out[i][j := result];
    out' := out'[i := out'[i][j := Parity(out'[i][j])]];
  }

  /** `np_bitmatrix`: a zeroed `M x N` matrix, each cell XOR-accumulated in place over
      `k`, then replaced by its popcount parity. */
  method NpBitmatrix(m: nat, n: nat, k: nat, a: seq<seq<bv8>>, b: seq<seq<bv8>>) returns (out: seq<seq<bv8>>)
    requires Operands(a, b, m, n, k)
    ensures IsMatrix(out, m, n)
    ensures forall i, j :: 0 <= i < m && 0 <= j < n ==> out[i][j] == Parity(Acc(a, b, m, n, k, i, j, k))
  {
    out := seq(m, _ => seq(n, _ => 0));
    for i := 0 to m
      invariant IsMatrix(out, m, n)
      invariant forall r, q :: 0 <= r < i && 0 <= q < n ==> out[r][q] == Parity(Acc(a, b, m, n, k, r, q, k))
      invariant forall r, q :: i <= r < m && 0 <= q < n ==> out[r][q] == 0
    {
      for j := 0 to n
        invariant IsMatrix(out, m, n)
        invariant forall r, q :: 0 <= r < i && 0 <= q < n ==> out[r][q] == Parity(Acc(a, b, m, n, k, r, q, k))
        invariant forall q :: 0 <= q < j ==> out[i][q] == Parity(Acc(a, b, m, n, k, i, q, k))
        invariant forall q :: j <= q < n ==> out[i][q] == 0
        invariant forall r, q :: i < r < m && 0 <= q < n ==> out[r][q] == 0
      {
        out := ReferenceCell(out, i, j, a, b, m, n, k);
      }
    }
  }

  /** The workload and the NumPy reference compute the same matrix, as `main` asserts. */
  method CheckAgainstReference(a: seq<seq<bv8>>, b: seq<seq<bv8>>, m: nat, n: nat, k: nat) returns (equal: bool)
    requires Operands(a, b, m, n, k)
    ensures equal
  {
    var reference := NpBitmatrix(m, n, k, a, b);
    var actual := Workload(a, b, m, n, k);
    assert forall i :: 0 <= i < m ==> reference[i] == actual[i];
    equal := reference == actual;
  }

  /** XOR over the reduction axis of the parity of each term. */
  function ParityAcc(a: seq<seq<bv8>>, b: seq<seq<bv8>>, m: nat, n: nat, k: nat, i: nat, j: nat, steps: nat): bv8
    requires Operands(a, b, m, n, k) && i < m && j < n && steps <= k
  {
    if steps == 0 then Identity
    else Combine(ParityAcc(a, b, m, n, k, i, j, steps - 1), Parity(a[i][steps - 1] & b[steps - 1][j]))
  }

  lemma {:induction false} ParityOfAcc(a: seq<seq<bv8>>, b: seq<seq<bv8>>, m: nat, n: nat, k: nat, i: nat, j: nat, steps: nat)
    requires Operands(a, b, m, n, k) && i < m && j < n && steps <= k
    ensures Parity(Acc(a, b, m, n, k, i, j, steps)) == ParityAcc(a, b, m, n, k, i, j, steps)
  {
    if steps > 0 {
      ParityOfAcc(a, b, m, n, k, i, j, steps - 1);
      ParityXor(Acc(a, b, m, n, k, i, j, steps - 1), a[i][steps - 1] & b[steps - 1][j]);
    }
  }

  /** Each output cell is the XOR over `k` of the parities of the individual terms
      `A[i, k] & B[k, j]`, because popcount parity distributes over XOR. */
  lemma WorkloadIsXorOfTermParities(a: seq<seq<bv8>>, b: seq<seq<bv8>>, m: nat, n: nat, k: nat)
    requires Operands(a, b, m, n, k)
    ensures forall i, j :: 0 <= i < m && 0 <= j < n ==>
      Workload(a, b, m, n, k)[i][j] == ParityAcc(a, b, m, n, k, i, j, k)
  {
    forall i, j | 0 <= i < m && 0 <= j < n
      ensures Workload(a, b, m, n, k)[i][j] == ParityAcc(a, b, m, n, k, i, j, k)
    {
      ParityOfAcc(a, b, m, n, k, i, j, k);
    }
  }

  /** With an empty reduction axis the workload outputs all zeros. */
  lemma EmptyReductionWorkload(a: seq<seq<bv8>>, b: seq<seq<bv8>>, m: nat, n: nat)
    requires Operands(a, b, m, n, 0)
    ensures forall i, j :: 0 <= i < m && 0 <= j < n ==> Workload(a, b, m, n, 0)[i][j] == 0
  {
    EmptyReductionIsZero(a, b, m, n);
  }
}
