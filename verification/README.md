# Bitmatrix erasure-coding kernel — a Dafny model

The system encodes erasure-coding parity with a bitwise matrix product over GF(2)
and no field multiplication. The generator is a matrix of byte masks (`0x00` or
`0xFF`). The data is a matrix of raw bytes. Each output byte is the XOR, over the
reduction axis, of `A[i, k] & B[k, j]`. This project models the core of that system:

- `ECModule.main`: the TVM kernel with fixed shapes 4×8 by 8×65536.
- The autoscheduled `bitmatrix` workload, which appends a popcount-parity step.
  Its `xor` reducer is modelled, as is the NumPy reference `np_bitmatrix` the
  workload is checked against.
- The bit expander. It turns a compact coefficient matrix into mask bytes, most
  significant bit first.
- The C++ bridge `tvm_ec_bitmatrix_multiply`. Jerasure calls it in place of its
  own bitmatrix encode. It derives operand shapes from `k, m, w, packetsize`,
  fills a mask matrix from the `int` bitmatrix, packs the data fragments, runs the
  kernel, copies the parity row blocks out, and picks the compiled schedule by
  file name.

Bytes are `bv8`. Matrices are `seq<seq<bv8>>` with an explicit shape predicate.
Flat device buffers are row-major `seq<bv8>`, viewed through `Matrix.Reshape` and
`Matrix.Flatten`. Integers are unbounded `nat`.

The modules follow the program's structure:

- `Bytes`: masks, popcount and parity.
- `XorReduce`: the `xor` comm-reducer.
- `Matrix`: shapes and row-major layout.
- `Kernel`: `ECModule.main`.
- `Autoschedule`: the workload and `np_bitmatrix`.
- `Expand`: `map` and `expand`.
- `Jerasure`: the bridge.
- `ScheduleName`: the schedule file name and its parser.

Each operation has a partner proved against it for all inputs. The partners are:

- a loop method against its functional definition;
- the workload against the NumPy reference;
- expand against its compaction (both round trips);
- pack against unpack (both round trips);
- the schedule name against its parser (both directions, hence injectivity);
- the whole bridge against Jerasure's dot-product definition of a coding byte.

## Model

| member | source | states |
|---|---|---|
| XorReduce.CombineIsCommutativeMonoid | ec/bitmatrix_autoschedule.py:9 | the `xor` reducer with identity 0 is a commutative monoid in which every element is its own inverse, so a reduction may combine terms in any grouping |
| XorReduce.XorOfAppend | ec/bitmatrix_autoschedule.py:9 | folding the reducer over a concatenation combines the folds of the two parts |
| XorReduce.XorOfPermutation | ec/bitmatrix_autoschedule.py:9 | folding the reducer over any rearrangement (same multiset) of the terms gives the same result |
| Kernel.MultiplyAccumulate | ec/bitmatrix.py:34-39 | the `i, j, k` loop nest, with each cell initialised to 0 and then XOR-accumulated with `A[i,k] & B[k,j]`, yields an `m × n` matrix whose every cell is the in-order XOR of its `k` terms |
| Kernel.ModuleMain | ec/bitmatrix.py:30-39 | `main` maps a 4×8 A and an 8×65536 B to a 4×65536 C whose cells are the accumulated XOR of `A[i,k] & B[k,j]` over the 8 reduction steps |
| Kernel.AccIsXorOfTerms | ec/bitmatrix.py:37-39 | the accumulated cell equals the `xor` reducer applied to the sequence of terms |
| Kernel.ReductionOrderIrrelevant | ec/bitmatrix_autoschedule.py:16-19 | any reordering of the reduction terms, as a schedule may choose, produces the same product cell |
| Kernel.ZeroRowGivesZeroRow | ec/bitmatrix.py:37-39 | a generator row of zero masks produces an all-zero output row |
| Kernel.EmptyReductionIsZero | ec/bitmatrix.py:37-38 | with an empty reduction axis every cell keeps its initial value 0 |
| Kernel.SelectorRow | ec/bitmatrix.py:39 | a row with a single `0xFF` mask at column `k0` copies row `k0` of B |
| Kernel.IdentityKernel | ec/bitmatrix.py:39 | the identity mask matrix leaves B unchanged (the systematic part of a code) |
| Kernel.LinearInB | ec/bitmatrix.py:39 | the product is linear over XOR in the data: `A·(B1 ⊕ B2) = A·B1 ⊕ A·B2` |
| Kernel.CellLocality | ec/bitmatrix.py:39 | cell `(i, j)` depends only on row `i` of A and column `j` of B |
| Bytes.Mask | ec/test_expand.py:11 | a selected flag becomes `0xFF` and an unselected one `0x00`, and the mask is nonzero exactly when the flag is set |
| Bytes.MaskSelects | ec/bitmatrix.py:39 | ANDing a byte with a mask keeps the byte when the mask is `0xFF` and clears it when it is `0x00` |
| Bytes.Parity | ec/bitmatrix_autoschedule.py:23 | `popcount(x) & 1` is always 0 or 1, and 0 for the zero byte |
| Bytes.ParityIsOddCount | ec/bitmatrix_autoschedule.py:23 | `popcount(x) & 1` is 1 exactly when an odd number of bits are set |
| Bytes.ParityXor | ec/bitmatrix_autoschedule.py:41-43 | popcount parity distributes over XOR: `parity(x ^ y) = parity(x) ^ parity(y)` |
| Autoschedule.Workload | ec/bitmatrix_autoschedule.py:12-25 | the `bitmatrix` workload maps an M×K A and a K×N B to an M×N output whose every cell is 0 or 1 |
| Autoschedule.ReferenceCell | ec/bitmatrix_autoschedule.py:41-43 | the in-place `k` loop followed by `bit_count() & 1` leaves the cell holding the parity of the accumulated XOR and changes no other cell |
| Autoschedule.ReferenceStep | ec/bitmatrix_autoschedule.py:42 | `out = xor(A[i,k] & B[k,j], out)`, with the operands in the reverse order of the kernel, still advances the accumulation by one term |
| Autoschedule.NpBitmatrix | ec/bitmatrix_autoschedule.py:37-44 | `np_bitmatrix` returns an M×N matrix, starting from zeros, whose cell `(i, j)` is the popcount parity of the XOR of `A[i,k] & B[k,j]` over `k` |
| Autoschedule.CheckAgainstReference | ec/bitmatrix_autoschedule.py:157-166 | the reference and the workload produce equal matrices for every input, so `main`'s `assert_equal` always passes |
| Autoschedule.WorkloadIsXorOfTermParities | ec/bitmatrix_autoschedule.py:41-43 | each output cell is the XOR over `k` of the parities of the individual terms `A[i,k] & B[k,j]` |
| Autoschedule.EmptyReductionWorkload | ec/bitmatrix_autoschedule.py:38-43 | with K = 0 every output cell is 0 |
| Expand.ShiftFor | ec/test_expand.py:10 | for `idx < ecW` the shift `ecW - idx - 1` lies in `[0, ecW)`: index 0 selects the top bit and index `ecW - 1` bit 0 |
| Expand.MapBit | ec/test_expand.py:9-11 | `map(idx, ecW, a)` is `0xFF` exactly when bit `ecW - idx - 1` of `a` is set, and `0x00` otherwise |
| Expand.SourceColumnInRange | ec/test_expand.py:15-17 | when K is a multiple of ecW, every output column `j` reads input column `j // ecW < ecData` |
| Expand.Expand | ec/test_expand.py:14-17 | `expand` maps an M×ecData input to an M×K output of masks |
| Expand.AlignedWidth | ec/test_expand.py:39-40 | with `K = ecData * ecW` as in `main`, `K // ecW = ecData` and nothing is left over |
| Expand.UnalignedWidthReadsPastEnd | ec/test_expand.py:15-17 | when K is not a multiple of ecW, the last output column reads input column `K // ecW = ecData`, one past the end of A |
| Expand.ExpandCell | ec/test_expand.py:10-17 | output column `c*ecW + b` holds the mask of bit `ecW - 1 - b` of `A[i, c]`: most significant bit first |
| Expand.ExpandLocality | ec/test_expand.py:17 | output cell `(i, j)` depends only on `A[i, j // ecW]` |
| Expand.ExpandBlock | ec/test_expand.py:17 | the `ecW` output columns of input column `c` are the MSB-first masks of `A[i, c]` |
| Expand.FromMaskBits | ec/test_expand.py:10-17 | reading MSB-first masks back as binary digits recovers any value below `2^w` |
| Expand.MaskBitsFromMasks | ec/test_expand.py:10-17 | every sequence of masks is the MSB-first expansion of the value it spells |
| Expand.CompactExpand | ec/test_expand.py:10-17 | expansion is lossless for coefficients below `2^ecW`: compacting the expanded matrix gives back A |
| Expand.ExpandCompact | ec/test_expand.py:10-17 | every matrix of masks is the expansion of its compaction |
| Expand.ExpandWidthOneKeepsMasks | ec/test_expand.py:9-17 | with ecW = 1 a matrix that already holds masks expands to itself |
| Jerasure.ShapesFor | deploy/tvm_jerasure.cc:27-29 | A is `(m·w)×(k·w)`, B is `(k·w)×packetsize` and C is `(m·w)×packetsize`, so the reduction axes agree, C has A's rows and B's columns, B holds k blocks of `w·packetsize` bytes and C holds m |
| Jerasure.FillEntry | deploy/tvm_jerasure.cc:47-50 | a nonzero bitmatrix entry becomes `0xFF` (`~0` as a byte) and zero becomes `0x00` |
| Jerasure.Fill | deploy/tvm_jerasure.cc:45-52 | every filled byte is a mask, and it is nonzero exactly where the bitmatrix entry at the same flat index is nonzero |
| Jerasure.FillRow | deploy/tvm_jerasure.cc:46-51 | the inner fill loop sets entries `base .. base + k·w - 1` of the buffer to the fill of the matching bitmatrix entries and leaves every other byte as it was |
| Jerasure.FillBitmatrix | deploy/tvm_jerasure.cc:45-52 | the nested fill loop writes index `i*k*w + j` for every `i < m·w`, `j < k·w`, overwriting every byte of the fresh buffer, so the result is the entry-wise fill whatever the buffer held before |
| Jerasure.FillIdempotent | deploy/tvm_jerasure.cc:47-50 | filling an already filled matrix changes nothing |
| Jerasure.FillLossless | deploy/tvm_jerasure.cc:47-50 | two bitmatrices fill to the same buffer exactly when they agree on which entries are nonzero |
| Jerasure.Pack | deploy/tvm_jerasure.cc:55-57 | the packed buffer holds k blocks of `w·packetsize` bytes |
| Jerasure.PackCell | deploy/tvm_jerasure.cc:55-57 | byte `t` of data fragment `i` lands at offset `i*w*packetsize + t` of B |
| Jerasure.PackCovers | deploy/tvm_jerasure.cc:55-57 | the k blocks are disjoint and cover B: offset `t` comes from fragment `t / (w·packetsize)` alone |
| Jerasure.PackData | deploy/tvm_jerasure.cc:55-57 | the `memcpy` loop writes all of B from the data fragments, whatever the buffer held before |
| Jerasure.UnpackCell | deploy/tvm_jerasure.cc:69-71 | coding fragment `i` receives exactly the bytes of C from offset `i*w*packetsize`, that is, rows `i*w .. i*w + w - 1` |
| Jerasure.UnpackPack | deploy/tvm_jerasure.cc:55-57 | reading back row block `i` of the packed B yields the first `w·packetsize` bytes of data fragment `i` unchanged |
| Jerasure.PackUnpack | deploy/tvm_jerasure.cc:55-57 | packing the row blocks of a buffer rebuilds the buffer |
| Jerasure.UnpackParity | deploy/tvm_jerasure.cc:69-71 | the copy-out loop replaces the first `w·packetsize` bytes of each of the first m coding buffers with its row block of C and changes nothing else |
| Jerasure.BitmatrixMultiply | deploy/tvm_jerasure.cc:15-74 | the bridge produces m coding fragments of `w·packetsize` bytes each |
| Jerasure.TermSelects | deploy/tvm_jerasure.cc:45-57 | the filled mask at `(row, t)` ANDed with byte `c` of row `t` of the packed B is byte `c` of packet `t % w` of data fragment `t / w` when bitmatrix entry `row*k*w + t` is nonzero, and 0 otherwise |
| Jerasure.AccIsSelectXor | deploy/tvm_jerasure.cc:63 | a kernel reduction whose every term is the matching term of Jerasure's dot product computes that dot product |
| Jerasure.CodingByteIsProductCell | deploy/tvm_jerasure.cc:69-71 | byte `c` of packet `r` of coding fragment `i` is cell `(i*w + r, c)` of the kernel's product |
| Jerasure.BitmatrixMultiplyComputesDotProduct | deploy/tvm_jerasure.cc:15-74 | byte `c` of packet `r` of coding fragment `i` is the XOR of byte `c` of every data packet `(d, b)` whose bitmatrix entry in row `i*w + r`, column `d*w + b` is nonzero |
| Jerasure.TvmEcBitmatrixMultiply | deploy/tvm_jerasure.cc:15-74 | the whole bridge method writes each of the first m coding buffers with its fragment of the encoded result, leaves their tails and all other buffers untouched, and does not depend on what the fresh buffers held |
| Jerasure.ScheduleFile | deploy/tvm_jerasure.cc:33 | the schedule name encodes m, packetsize and k, and they can be read back from it |
| Jerasure.ScheduleFileOmitsWidth | deploy/tvm_jerasure.cc:27-33 | two symbol widths give different operand shapes but the same schedule file name |
| ScheduleName.NatToString | deploy/tvm_jerasure.cc:33 | `std::to_string` of a non-negative number is a non-empty run of decimal digits with no leading zero, one digit long exactly for values below 10 |
| ScheduleName.NatToStringValue | deploy/tvm_jerasure.cc:33 | the decimal numeral denotes the number it was written from |
| ScheduleName.ValueToString | deploy/tvm_jerasure.cc:33 | every canonical numeral is how its value is written |
| ScheduleName.FileName | deploy/tvm_jerasure.cc:33 | the name starts with `/P_` and ends with `.so` |
| ScheduleName.ParseFileNameRoundTrip | deploy/tvm_jerasure.cc:33 | parsing `"/P_" + m + "_n_" + packetsize + "_D_" + k + ".so"` returns `(m, packetsize, k)` |
| ScheduleName.ParsedNameIsFileName | deploy/tvm_jerasure.cc:33 | every name the parser accepts is the name built from the numbers it returns |
| ScheduleName.FileNameInjective | deploy/tvm_jerasure.cc:33 | two triples share a schedule name exactly when they are equal |

## Left out

- TVM compilation, scheduling and tuning are not modelled: `auto_scheduler`, `meta_schedule`, `tvm.build`, `time_evaluator` and lowering. A schedule only reorders the reduction. `Kernel.ReductionOrderIrrelevant` covers that freedom through the `xor` reducer's algebra.
- TVM runtime calls in the bridge are not modelled: `getenv`, `Module::LoadFromFile`, `GetFunction`, `TVMArrayAlloc`/`TVMArrayFree` and the `ICHECK`s. The loaded `default_function` is taken to be the kernel of `ECModule.main` at the bridge's shapes. The contents of freshly allocated buffers are a parameter, and the results are proved independent of it.
- The bridge's `size` parameter is never read. Only the first `w·packetsize` bytes of each data and coding fragment take part, and the model has no `size`.
- The bridge's `int` arithmetic is modelled on unbounded naturals. 32-bit overflow of `i*k*w + j` or `i*w*packetsize` for very large shapes is not modelled.
- Expand.Expand: requires K to be a multiple of ecW. The source has no guard, and for other K the last columns read past the end of A (`Expand.UnalignedWidthReadsPastEnd`), which TVM does not define. `main` always uses `K = ecData * ecW` (`Expand.AlignedWidth`).
- Expand.Expand: coefficients are unbounded naturals, not a fixed integer dtype. `main` uses `uint8` with ecW = 8, which `Expand.FitsWidth` covers.
- The Reed–Solomon generator (GF(2^w) arithmetic through an external library), the decoder and the MDS property are not part of this model. The encoder script that would build them is incomplete, and its decode is not implemented.
- The float32 GEMM benchmarks, MKL calls, the C++ demo program, benchmark configuration and result plotting are not part of this model. They involve floating point, foreign libraries and I/O.
