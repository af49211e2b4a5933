# amcl_rust_wrapper core, modelled in Dafny

This project models three parts of the Rust wrapper around the AMCL pairing library:

- **Windowed scalar and multi-scalar multiplication** on group elements (`src/group_elem.rs`):
  - the odd-multiple lookup table and the wNAF double-and-add fold;
  - `get_multiples`;
  - the Strauss interleaved multi-scalar multiplication over padded wNAF digits;
  - the base-8 simultaneous multiplication (Guide to Elliptic Curve Cryptography, Algorithm 3.48);
  - the naive baseline;
  - the length-checked vector operations.
- **Barrett reduction** (`src/utils.rs`): Algorithm 14.42 of the Handbook of Applied Cryptography with base b = 2, and its parameter computation.
- **Pairing dispatch on the target group GT** (`src/extension_field_gt.rs`):
  - the identity short-cuts of `ate_pairing` and `ate_2_pairing`;
  - the skip-identity accumulator fold of `ate_multi_pairing`;
  - the `from_bytes` length check;
  - the token sequencing of `from_hex` / `parse_hex_as_FP4`.

## How the model represents the system

- **Group elements are discrete logarithms.** A point is an `int`:
  - the identity is 0;
  - addition is `+`;
  - doubling is `p + p`;
  - negation is unary minus;
  - `p * s` is `s * p`.

  The map from the integers onto the group of order r is a homomorphism, so every equality proved here also holds after reduction modulo r. A digit sequence d stands for the scalar `Horner(d, radix)` = Σ dᵢ·radixⁱ. The radix is 2 for a wNAF and 8 for the base-8 form. The same evaluation applied to points is what a most-significant-first double-and-add fold computes.
- **Digit encodings are inputs.** `to_wnaf(5)` and `to_power_of_2_base(3)` are not defined in the modelled files, so the scalars are taken as their digit sequences, with range preconditions:
  - wNAF digits are 0 or odd with |d| < 16;
  - base-8 digits are in 0..7.
- **The two macros are modelled by their visible use.** `check_vector_size_for_equality!` becomes a `Failure(UnequalSizeVectors)` result. `pad_collection!` becomes zero-padding to the maximum length (`PadAll`, `MaxLength`). `src/macros.rs` is not part of this model.
- **Interleaved loops are proved against a ghost matrix.** Row j holds the point that base j adds at each digit position. `RowSum` is the value of the rows from a position upward, and `ColumnSum` is one position's contribution. `RowStep` shows that processing one position turns `RowSum` from i + 1 into `RowSum` from i. That identity is the outer loop's invariant.
- **Barrett.** BIG and DBIG are unbounded `nat`s:
  - shifts become division by `Pow2`;
  - `mod2m` becomes `% Pow2`;
  - the borrow-avoiding `v - (r2 - r1)` is kept as written.

  `ValidParams(x, m, k, u)` is the algorithm's precondition: `2^(k-1) <= m < 2^k`, `x < 2^(2k)` and `u = floor(2^(2k) / m)`.
- **Foreign AMCL pieces are parameters.**
  - A record `Amcl<Acc>` carries the pieces: `ate`, `ate2`, `fexp`, `initmp`, `another`, `miller`, FP12 multiplication and inverse, `new_fp4s`, `frombytes`, `parse_hex_as_FP2`, and the constant `GroupGT_SIZE`.
  - The mathematical laws the library is expected to satisfy are a hypothesis, `PairingLaws`, used only by the lemmas that need them. The laws are:
    - `one` is neutral for FP12 multiplication on both sides;
    - the reduced pairing of two non-identity points times its inverse is `one`;
    - fexp(miller(initmp)) is `one`;
    - adding a pair of non-identity points multiplies the reduced value: fexp(miller(another(acc, q, p))) = fexp(miller(acc)) · fexp(ate(q, p));
    - the reduced `ate2` of non-identity points is the product of the two reduced `ate`s.
- **State.** A `GroupElementVector` is a class whose `elems` field the in-place methods reassign. `MutableGT` models `inverse_mut`, which changes a GT value in place. Methods that return a new vector return its element sequence.

## Model

| member | source | states |
|---|---|---|
| LookupTables.Select | src/group_elem.rs:410-416 | for odd x < 16 (the debug assertions) entry x/2 of a table built from A is x·A |
| LookupTables.From | src/group_elem.rs:419-438 | after one doubling and seven additions of 2A, entry i of the 8-entry array is (2i+1)·A, and entry 0 is A |
| WnafScalarMul.WnafMul | src/group_elem.rs:476-491 | folding the digits from the most significant end (one doubling per digit; a positive digit adds `select(d)`, a negative one subtracts `select(-d)`) gives (Σ dᵢ·2ⁱ)·A for the table's base A |
| WnafScalarMul.DoubleAndAdd | src/group_elem.rs:482-488 | doubling h·A and then adding v·A, subtracting (−v)·A, or doing nothing for v = 0 all give (v + 2h)·A |
| WnafScalarMul.ScalarMulVariableTime | src/group_elem.rs:453-458 | table plus wNAF fold equals the scalar multiple by the wNAF's value |
| WnafScalarMul.ToWnafLookupTable | src/group_elem.rs:470-474 | whatever the width (checked only by a debug assertion) the table holds the odd multiples A, 3A, …, 15A |
| WnafScalarMul.GetMultiples | src/group_elem.rs:461-468 | returns n elements with res[j] = (j+1)·A for n ≥ 1, and the single element [A] for n = 0 |
| Group.HornerPadZeros | src/group_elem.rs:767-768 | appending zero digits at the most significant end changes no scalar's value |
| Group.HornerScale | src/group_elem.rs:476-491 | evaluating the points dᵢ·A in a radix is the multiple of A by the digits' value |
| MultiScalarMul.MaxLength | src/group_elem.rs:767 | the common length is the length of one of the sequences and no sequence is longer; 0 for no sequences |
| MultiScalarMul.PadAll | src/group_elem.rs:767-768 | every padded sequence has the common length, keeps the original digits as a prefix and is zero beyond them |
| MultiScalarMul.PadAllKeepsValues | src/group_elem.rs:767-768 | padding to the common length keeps each sequence's value |
| MultiScalarMul.RowStep | src/group_elem.rs:772-784 | one position of an interleaved pass: the rows' values from i equal radix times their values from i+1 plus that position's column sum |
| MultiScalarMul.RowSumAtEnd | src/group_elem.rs:770 | before any position is processed the accumulator (identity) equals the rows' values past the last position |
| MultiScalarMul.StraussPosition | src/group_elem.rs:773-782 | one Strauss step: t = 2r plus, per base, `select(d)` added or `select(-d)` subtracted, which is the column sum of the rows dⱼ·Aⱼ |
| MultiScalarMul.StraussPass | src/group_elem.rs:770-784 | the outer loop over positions from the most significant leaves the sum of all rows' values in the accumulator |
| MultiScalarMul.RowSumIsInnerProduct | src/group_elem.rs:770-785 | rows whose values are sⱼ·Aⱼ sum to the inner product Σ sⱼ·Aⱼ |
| MultiScalarMul.StraussRowValue | src/group_elem.rs:768-782 | the padded row of base j evaluates to value(nafⱼ)·Aⱼ |
| MultiScalarMul.StraussRowsValue | src/group_elem.rs:768-785 | the Strauss rows sum to Σⱼ value(nafⱼ)·Aⱼ |
| MultiScalarMul.PadAllWnaf | src/group_elem.rs:767-768 | zero-padding keeps every digit a wNAF digit |
| MultiScalarMul.MultiScalarMulVarTimeWithPrecomputationDone | src/group_elem.rs:759-786 | fails with `UnequalSizeVectors` exactly when the counts of scalars and tables differ; otherwise returns Σⱼ value(nafⱼ)·Aⱼ |
| MultiScalarMul.MultiScalarMulVarTimeWithoutPrecomputation | src/group_elem.rs:727-740 | builds one table per element and returns the same error, or Σⱼ value(nafⱼ)·eⱼ |
| MultiScalarMul.WindowedSumOfMultiples | src/group_elem.rs:808-841 | when mⱼ[t] = (t+1)·Aⱼ, the windowed sum of the first k bases is their inner product with the base-8 values |
| MultiScalarMul.WindowedSumIsInnerProduct | src/group_elem.rs:808-841 | the same for all bases |
| MultiScalarMul.PadAllBase8 | src/group_elem.rs:821-822 | zero-padding keeps every digit in 0..7 |
| MultiScalarMul.WindowRowValue | src/group_elem.rs:822-838 | the padded row of base j evaluates to that base's windowed contribution |
| MultiScalarMul.RowSumIsWindowedSum | src/group_elem.rs:824-840 | rows with those values sum to the windowed sum |
| MultiScalarMul.WindowRowsValue | src/group_elem.rs:822-840 | the windowed rows sum to the windowed sum |
| MultiScalarMul.WindowPosition | src/group_elem.rs:826-838 | one windowed step: three doublings give 8r, and each non-zero digit b adds m[b−1], a zero digit adding nothing |
| MultiScalarMul.WindowedPass | src/group_elem.rs:824-839 | the outer loop leaves the sum of all rows' values in the accumulator |
| MultiScalarMul.MultiScalarMulConstTimeWithPrecomputationDone | src/group_elem.rs:808-841 | fails with `UnequalSizeVectors` exactly when the counts differ; otherwise returns the windowed sum, which is Σⱼ(Σᵢ bⱼᵢ·8ⁱ)·Aⱼ when the lists are true multiples |
| MultiScalarMul.MultiScalarMulConstTimeWithoutPrecomputation | src/group_elem.rs:791-806 | with `get_multiples(7)` per element, returns the error or Σⱼ value(bⱼ)·eⱼ |
| MultiScalarMul.MultiScalarMulConstTimeNaive | src/group_elem.rs:698-708 | fails on a length mismatch, otherwise accumulates Σ sⱼ·eⱼ |
| MultiScalarMul.StrategiesAgree | src/group_elem.rs:657-669 | the naive, Strauss and windowed multiplications (and so `inner_product_const_time` / `inner_product_var_time`, which delegate to them) give the same result for digits encoding the same scalars, failing exactly on a length mismatch |
| GroupElemVector.SubtractedUndoesAdded | src/group_elem.rs:615-635 | `minus` after `plus` by the same vector gives back the original |
| GroupElemVector.SumOfAppend | src/group_elem.rs:590-595 | the sum of a concatenation is the sum of the sums |
| GroupElemVector.SumOfAdded | src/group_elem.rs:590-624 | summing an elementwise sum adds the two sums |
| GroupElemVector.SumOfScaled | src/group_elem.rs:590-603 | summing a scaled vector scales the sum |
| GroupElemVector.SumOfRemove | src/group_elem.rs:590-595 | the sum is the sum of the other elements plus the removed one |
| GroupElemVector.SumOfPermutation | src/group_elem.rs:590-595 | any reordering of the elements (as the parallel reduce may choose) has the same sum |
| GroupElemVector.SplitAt | src/group_elem.rs:691-694 | halves of lengths mid and len−mid whose concatenation is the original |
| GroupElemVector.SplitAtSum | src/group_elem.rs:691-694 | the sums of the two halves add up to the whole sum |
| GroupElemVector.GroupElementVector.Sum | src/group_elem.rs:590-595 | the loop's accumulator is the sum of the elements |
| GroupElemVector.GroupElementVector.Scale | src/group_elem.rs:597-603 | every element is replaced in place by its multiple by n, and nothing else changes |
| GroupElemVector.GroupElementVector.ScaledBy | src/group_elem.rs:605-613 | returns the scaled elements and leaves the vector alone |
| GroupElemVector.GroupElementVector.ScaleVarTime | src/group_elem.rs:845-851 | one wNAF for all elements; each element becomes its multiple by the wNAF's value |
| GroupElemVector.GroupElementVector.ScaledByVarTime | src/group_elem.rs:855-859 | returns that scaled copy |
| GroupElemVector.ScaleVarTimeAgreesWithScale | src/group_elem.rs:845-851 | `scale_var_time` by the wNAF of n gives the same vector as `scale` by n |
| GroupElemVector.GroupElementVector.Plus | src/group_elem.rs:615-624 | fails with `UnequalSizeVectors` on differing lengths, otherwise result[i] = a[i] + b[i] |
| GroupElemVector.GroupElementVector.Minus | src/group_elem.rs:626-635 | fails on differing lengths, otherwise result[i] = a[i] − b[i] |
| GroupElemVector.GroupElementVector.HadamardProduct | src/group_elem.rs:682-689 | fails on differing lengths, otherwise the group operation elementwise, i.e. the same vector as `plus` |
| GroupElemVector.GroupElementVector.Equals | src/group_elem.rs:905-917 | true exactly when the lengths agree and every element agrees |
| Barrett.BitLength | src/utils.rs:141 | for m > 0 the bit length k satisfies 2^(k−1) ≤ m < 2^k |
| Barrett.Q1 | src/utils.rs:51-55 | the shifted quotient q1 never exceeds x (its floor bounds are `FloorSteps`) |
| Barrett.Q3 | src/utils.rs:57-62 | the estimated quotient q3 never exceeds the product q1·u it is shifted from (its floor bounds are `FloorSteps`) |
| Barrett.FloorSteps | src/utils.rs:51-62 | both shifts are floors: q1·2^(k−1) ≤ x < (q1+1)·2^(k−1) and q3·2^(k+1) ≤ q1·u < (q3+1)·2^(k+1) |
| Barrett.Estimate | src/utils.rs:64-84 | the borrow-avoiding estimate lies in [0, v) when v is the window 2^w, and below 2^w whenever v ≤ 2^w |
| Barrett.EstimateIsWindowResidue | src/utils.rs:64-84 | r1 − r2, or v − (r2 − r1) when r1 < r2, lies in [0, 2^w) and equals (x − q3·m) mod 2^w, so no signed arithmetic is needed |
| Barrett.QuotientBounds | src/utils.rs:51-62 | under the algorithm's preconditions q3·m ≤ x < (q3 + 3)·m |
| Barrett.Narrowing | src/utils.rs:51-62 | q1 and q3 are both below 2^(k+1), so narrowing them with `new_dcopy` loses nothing |
| Barrett.SubtractUntilBelow | src/utils.rs:86-91 | the subtraction loop ends below m, keeps the remainder and runs floor(r/m) times |
| Barrett.WindowedCase | src/utils.rs:64-91 | when x − q3·m is below the window the estimate is exactly x − q3·m, congruent to x, and at most two subtractions follow |
| Barrett.BarrettReduction | src/utils.rs:44-92 | as written (window 2^(k+1)): the result is below m and congruent to the window estimate; under the preconditions the final loop subtracts at most twice, and the result is x mod m whenever x − q3·m < 2^(k+1) |
| Barrett.AtMostTwoSubtractions | src/utils.rs:64-91 | under the preconditions the as-written estimate, wrapped or not, is below 3m, so at most two subtractions follow |
| Barrett.BarrettReductionWindowTooNarrow | src/utils.rs:58-84 | valid parameters for which the as-written result differs from x mod m |
| Barrett.BarrettReductionSingleWidth | src/utils.rs:95-134 | `__barrett_reduction__`: below m, at most two subtractions under the preconditions, and equal to x mod m (what `rmod` gives) for every x < 2^(k+1), such as the sum of two residues reduced in the test |
| Barrett.WiderWindowSuffices | src/utils.rs:58-84 | under the preconditions x − q3·m < 2^(k+2) |
| Barrett.BarrettReductionCorrected | src/utils.rs:44-92 | with window and v equal to 2^(k+2), the result is x mod m under the preconditions, after at most two subtractions |
| Barrett.BarrettReductionParams | src/utils.rs:140-157 | as written: k is the bit length, v = 2^(k+1), u = floor(2^(2k) / CURVE_ORDER); the triple is valid for every x < 2^(2k) when the modulus is the curve order, and for no x when it is any other modulus |
| Barrett.ParamsValidOnlyForCurveOrder | src/utils.rs:140-157 | for every modulus m other than the curve order c, floor(2^(2k)/c) ≠ floor(2^(2k)/m), so the parameters are valid for no input |
| Barrett.QuotientsDiffer | src/utils.rs:150 | for 0 < a < b with a² ≤ w, floor(w/b) < floor(w/a): dividing by the wrong modulus changes u |
| Barrett.ParamsUseCurveOrder | src/utils.rs:150 | one concrete instance: modulus 57 with curve order 59 gets u = 69 instead of 71, and the triple is invalid |
| Barrett.BarrettParams | src/utils.rs:140-157 | corrected: u divides by the modulus itself, and the triple is valid for every x < 2^(2k) |
| Barrett.Reduce | src/utils.rs:44-157 | parameters plus corrected reduction give x mod m for every x < 2^(2k) |
| ExtensionFieldGT.One | src/extension_field_gt.rs:104-110 | under the pairing laws `one` is neutral for FP12 multiplication on both sides |
| ExtensionFieldGT.Mul | src/extension_field_gt.rs:77-81 | under the pairing laws, multiplying by `one` on either side returns the other factor |
| ExtensionFieldGT.Inverse | src/extension_field_gt.rs:90-94 | under the pairing laws, a pairing of non-identity points times its inverse is `one`, as the inverse test in src/extension_field_gt.rs:199-211 checks |
| ExtensionFieldGT.AtePairing | src/extension_field_gt.rs:40-47 | returns one when either input is the identity, without a Miller loop; otherwise fexp(ate(g2, g1)), with the G2 point first |
| ExtensionFieldGT.Ate2Pairing | src/extension_field_gt.rs:50-60 | an identity in the first pair gives `ate_pairing(h1, h2)`, an identity in the second pair alone gives `ate_pairing(g1, g2)`, four identities give one |
| ExtensionFieldGT.Ate2IsProduct | src/extension_field_gt.rs:49-60 | under the pairing laws, `ate_2_pairing` is the product of the two single pairings in every case of the dispatch |
| ExtensionFieldGT.IdentityPairingIsNeutral | src/extension_field_gt.rs:40-47 | a pairing with the identity is neutral for `mul` |
| ExtensionFieldGT.MutableGT.InverseMut | src/extension_field_gt.rs:96-98 | the value becomes what `inverse` returns for the old value |
| ExtensionFieldGT.WithoutIdentities | src/extension_field_gt.rs:67-70 | the kept pairs have no identity component and come from the input |
| ExtensionFieldGT.Accumulate | src/extension_field_gt.rs:66-72 | the accumulator stays `initmp` when every pair has an identity point |
| ExtensionFieldGT.MultiPairingValue | src/extension_field_gt.rs:65-75 | when every pair has an identity, the value is fexp(miller(initmp)) |
| ExtensionFieldGT.AteMultiPairing | src/extension_field_gt.rs:65-75 | the loop with `continue` computes fexp(miller(fold of `another` over the non-identity pairs, in order)), with one final exponentiation |
| ExtensionFieldGT.AccumulateSkipsIdentities | src/extension_field_gt.rs:65-75 | the result equals the multi-pairing of the list with the identity pairs removed |
| ExtensionFieldGT.AllIdentityPairsGiveOne | src/extension_field_gt.rs:65-75 | a list of identity pairs (or no pairs) gives one |
| ExtensionFieldGT.MultiPairingIsProduct | src/extension_field_gt.rs:62-75 | under the pairing laws, the multi-pairing equals the product of the single pairings |
| ExtensionFieldGT.FromBytes | src/extension_field_gt.rs:124-134 | fails with `GTBytesIncorrectSize(len, GroupGT_SIZE)` exactly when len ≠ GroupGT_SIZE, and otherwise wraps `frombytes` |
| ExtensionFieldGT.ParseFp2s | src/extension_field_gt.rs:140-174 | n FP2 groups read in order, stopping at the first error |
| ExtensionFieldGT.ParseFp4 | src/extension_field_gt.rs:163-174 | succeeds exactly when two FP2 groups parse; then a and b are those two in order, otherwise the first error |
| ExtensionFieldGT.FromHex | src/extension_field_gt.rs:140-151 | an error in the first FP4 is returned as is; on success a is the first FP4 read and the type is DENSE |
| ExtensionFieldGT.FromHexReadsSixFp2s | src/extension_field_gt.rs:140-151 | `from_hex` succeeds exactly when six FP2 groups parse in order; it returns the first error, and on success holds a = (f0, f1), b = (f2, f3), c = (f4, f5) with type DENSE |
| ExtensionFieldGT.ParseFp4ReadsTwo | src/extension_field_gt.rs:163-174 | `parse_hex_as_FP4` reads two FP2 groups (a, b) and returns the first error |

## Left out

- Curve arithmetic, FP12 arithmetic and the pairing (ate, ate2, fexp, initmp, another, miller, FP12 multiply, inverse and `pow`, `isunity`) are in the foreign AMCL library. Points are discrete logarithms. The pairing pieces are parameters, and their laws are the hypothesis `PairingLaws`.
- `pow` and `is_one` on GT: they are single calls into FP12 with nothing of the wrapper's own to state.
- GT `PartialEq` delegates to FP12 `equals`, which is foreign. The model compares GT values with Dafny equality.
- Reduction modulo the group order r is not modelled. The equalities proved over the integers carry over to the group.
- The scalar encodings `to_wnaf` and `to_power_of_2_base` are not part of this model. The multiplications take digit sequences, and results are stated for the scalars the digits encode.
- The curve library's constant-time `p * s`, used by `scale`, the naive multiplication and `scaled_by`, is modelled by its value `ScalarMul`.
- Parallel iteration (rayon) is modelled as sequential loops. `SumOfPermutation` shows that the order of the parallel reduce does not matter.
- Constant-time execution and all timing tests cannot be expressed in the model.
- Serialization (hex and byte formats, serde, Display, Hash), `to_bytes`/`to_hex` of GT, `parse_hex_as_FP2` and the `split_whitespace` tokenizer:
  - they are formats of the foreign library;
  - `from_hex` is modelled over a sequence of tokens, with `parse_hex_as_FP2` as a parameter.
- Hashing to curve, `hash_msg`, random elements and RNG seeding are foreign cryptography and randomness.
- Zeroize on drop has no functional behaviour to state.
- Operator-overload boilerplate and the deprecated wrappers (`multi_scalar_mul_var_time_from_ref_vecs`, `inner_product_var_time_with_ref_vecs`) are aliases of modelled operations.
- Vector constructors, indexing, `push`, `remove` and `iter` are plain `Vec` operations. A vector returned by value is modelled as its element sequence.
- The fixed BIG/DBIG widths are not modelled. Barrett values are unbounded naturals, and the `new_dcopy` narrowings are covered by `Narrowing` under the algorithm's preconditions.
- LookupTables.Select: requires the debug assertions (odd x < 16) of the source as a precondition. A release build without them would return entry x/2 for any x < 16.
- Barrett.BarrettReductionSingleWidth: states x mod m only for x < 2^(k+1). For larger single-width inputs the same narrow-window defect as in `barrett_reduction` applies.
- Barrett.BarrettReduction: states x mod m only when x − q3·m < 2^(k+1). See Findings.
- Barrett.BarrettReduction: requires k ≥ 1, m > 0 and v = 2^(k+1). With k = 0 the source underflows computing k − 1 (src/utils.rs:53), and with m = 0 its final loop never ends (src/utils.rs:87-90); another v is accepted by the source and changes the borrow case of the estimate.
- Barrett.BarrettReductionSingleWidth: the same requires as `BarrettReduction`, for the same reasons (src/utils.rs:98 and 129-132).
- Barrett.BarrettReductionCorrected: the same requires, with v = 2^(k+2).
- MultiScalarMul.MultiScalarMulConstTimeWithPrecomputationDone: requires at least seven multiples per base. The source only panics when a digit b indexes past the list (`m[b - 1]` at src/group_elem.rs:836), so shorter lists whose digits never reach the missing entries are not modelled.
- GroupElemVector.SplitAt: requires mid ≤ len. `split_at` panics for a larger mid (src/group_elem.rs:692), and the model has no panic path.
- WnafScalarMul.ToWnafLookupTable: models a release build. A debug build panics on a width other than 5 (src/group_elem.rs:472).

## Findings

| source | as written | input that shows it | evidently intended | confidence | as-written member | corrected member |
|---|---|---|---|---|---|---|
| src/utils.rs:58-84 | `barrett_reduction` computes r1, r2 and v modulo 2^(k+1). With b = 2, the difference x − q3·m can be as large as 3m − 1, and 3m can exceed 2^(k+1) when m > 2^(k+1)/3. Algorithm 14.42 relies on 3m < b^(k+1), which holds for every b ≥ 3 but not always for b = 2. | m = 57 (k = 6), u = floor(4096/57) = 71, x = 4061 < 2^12: q3 = 69, x − q3·m = 128 = 2^7, so the estimate wraps to 0 and the result is 0, while 4061 mod 57 = 14 | the reduction returns x mod m for every x < 2^(2k); a window of 2^(k+2) (and v = 2^(k+2)) makes this hold | not executed; derived by hand on a small modulus; only moduli with m > 2^(k+1)/3 are exposed | Barrett.BarrettReduction, Barrett.BarrettReductionWindowTooNarrow | Barrett.BarrettReductionCorrected |
| src/utils.rs:150 | `barrett_reduction_params(modulus)` computes u = floor(2^(2k) / CURVE_ORDER) instead of dividing by its argument | modulus 57 with a curve order of 59: u = 69, but the algorithm needs floor(4096/57) = 71 | u = floor(2^(2k) / modulus), so the parameters are valid for the modulus given | not executed; harmless when the modulus is the curve order, the modulus the tests in src/utils.rs use | Barrett.BarrettReductionParams, Barrett.ParamsValidOnlyForCurveOrder, Barrett.ParamsUseCurveOrder | Barrett.BarrettParams |
