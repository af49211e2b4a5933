/**
 * Multi-scalar multiplication s[0] * A[0] + s[1] * A[1] + ... over a vector
 * of group elements: the naive baseline, Strauss' interleaved variable-time
 * method over padded wNAF digits, and the windowed simultaneous method with
 * base-8 digits (Guide to Elliptic Curve Cryptography, Algorithm 3.48).
 *
 * The digit encodings of the scalars (`to_wnaf(5)`, `to_power_of_2_base(3)`)
 * are computed by the scalar field type outside this core and are inputs
 * here. The padding macro extends every digit sequence with zeros to the
 * longest length; `PadAll` models it.
 */
module MultiScalarMul {
  import opened Group
  import opened Wrappers
  import opened LookupTables
  import opened WnafScalarMul

  // ---------------------------------------------------------------------
  // Digit sequences and their padding

  /** Length of the longest digit sequence (0 for none). */
  function MaxLength(ds: seq<seq<int>>): (n: nat)
    ensures forall j :: 0 <= j < |ds| ==> |ds[j]| <= n
    ensures |ds| == 0 ==> n == 0
    ensures |ds| > 0 ==> exists j :: 0 <= j < |ds| && |ds[j]| == n
  {
    if |ds| == 0 then 0
    else
      var m := MaxLength(ds[..|ds| - 1]);
      if |ds[|ds| - 1]| > m then |ds[|ds| - 1]| else m
  }

  /** Every sequence extended with trailing zero digits to length n. */
  function PadAll(ds: seq<seq<int>>, n: nat): (p: seq<seq<int>>)
    requires forall j :: 0 <= j < |ds| ==> |ds[j]| <= n
    ensures |p| == |ds|
    ensures forall j :: 0 <= j < |p| ==> |p[j]| == n && p[j][..|ds[j]|] == ds[j]
    ensures forall j, i :: 0 <= j < |p| && |ds[j]| <= i < n ==> p[j][i] == 0
  {
    seq(|ds|, j requires 0 <= j < |ds| => ds[j] + seq(n - |ds[j]|, _ => 0))
  }

  /** Padding changes the value of no digit sequence, in any radix. */
  lemma PadAllKeepsValues(ds: seq<seq<int>>, n: nat, radix: int, j: nat)
    requires forall l :: 0 <= l < |ds| ==> |ds[l]| <= n
    requires j < |ds|
    ensures Horner(PadAll(ds, n)[j], radix) == Horner(ds[j], radix)
  {
    HornerPadZeros(ds[j], radix, n - |ds[j]|);
  }

  /** The scalars the digit sequences encode. */
  function Values(ds: seq<seq<int>>, radix: int): (v: seq<int>)
    ensures |v| == |ds| && forall j :: 0 <= j < |ds| ==> v[j] == Horner(ds[j], radix)
  {
    seq(|ds|, j requires 0 <= j < |ds| => Horner(ds[j], radix))
  }

  function Bases(tables: seq<LookupTable>): (b: seq<Point>)
    ensures |b| == |tables| && forall j :: 0 <= j < |tables| ==> b[j] == Base(tables[j])
  {
    seq(|tables|, j requires 0 <= j < |tables| => Base(tables[j]))
  }

  // ---------------------------------------------------------------------
  // Interleaved evaluation. A row c[j] holds the point that base j adds at
  // each digit position; one pass over the positions, from the most
  // significant, multiplies the shared accumulator by the radix and adds the
  // column of the current position.

  ghost predicate Rectangular(c: seq<seq<Point>>, n: nat)
  {
    forall j :: 0 <= j < |c| ==> |c[j]| == n
  }

  /** Sum over the first k rows of the value of their digits from position i. */
  ghost function RowSum(c: seq<seq<Point>>, n: nat, radix: int, i: nat, k: nat): Point
    requires Rectangular(c, n) && i <= n && k <= |c|
  {
    if k == 0 then Identity() else Add(RowSum(c, n, radix, i, k - 1), Horner(c[k - 1][i..], radix))
  }

  /** Sum over the first k rows of their contribution at position i. */
  ghost function ColumnSum(c: seq<seq<Point>>, n: nat, i: nat, k: nat): Point
    requires Rectangular(c, n) && i < n && k <= |c|
  {
    if k == 0 then Identity() else Add(ColumnSum(c, n, i, k - 1), c[k - 1][i])
  }

  /** Processing position i turns the sums from i + 1 into the sums from i. */
  lemma {:induction false} RowStep(c: seq<seq<Point>>, n: nat, radix: int, i: nat, k: nat)
    requires Rectangular(c, n) && i < n && k <= |c|
    ensures RowSum(c, n, radix, i, k)
         == Add(ScalarMul(RowSum(c, n, radix, i + 1, k), radix), ColumnSum(c, n, i, k))
  {
    if k > 0 {
      RowStep(c, n, radix, i, k - 1);
      HornerAt(c[k - 1], radix, i);
    }
  }

  /** Before the first position is processed nothing has been accumulated. */
  lemma {:induction false} RowSumAtEnd(c: seq<seq<Point>>, n: nat, radix: int, k: nat)
    requires Rectangular(c, n) && k <= |c|
    ensures RowSum(c, n, radix, n, k) == Identity()
  {
    if k > 0 {
      RowSumAtEnd(c, n, radix, k - 1);
      assert c[k - 1][n..] == [];
    }
  }

  // ---------------------------------------------------------------------
  // Strauss, variable time

  /** Row j of the Strauss pass: digit times the base of table j. */
  ghost function StraussRows(tables: seq<LookupTable>, padded: seq<seq<int>>, n: nat): (c: seq<seq<Point>>)
    requires |tables| == |padded| && forall j :: 0 <= j < |padded| ==> |padded[j]| == n
    ensures |c| == |padded| && Rectangular(c, n)
    ensures forall j, i :: 0 <= j < |c| && 0 <= i < n ==> c[j][i] == ScalarMul(Base(tables[j]), padded[j][i])
  {
    seq(|padded|, j requires 0 <= j < |padded| =>
      seq(n, i requires 0 <= i < n => ScalarMul(Base(tables[j]), padded[j][i])))
  }

  /**
   * Rows whose values are the products vals[j] * bases[j] sum to the inner
   * product, for any such rows.
   */
  lemma {:induction false} RowSumIsInnerProduct(c: seq<seq<Point>>, n: nat, radix: int, vals: seq<int>, bases: seq<Point>, k: nat)
    requires Rectangular(c, n) && |c| == |vals| == |bases| && k <= |c|
    requires forall j :: 0 <= j < |c| ==> Horner(c[j][0..], radix) == ScalarMul(bases[j], vals[j])
    ensures RowSum(c, n, radix, 0, k) == InnerProduct(vals[..k], bases[..k])
  {
    if k > 0 {
      RowSumIsInnerProduct(c, n, radix, vals, bases, k - 1);
      assert vals[..k][..k - 1] == vals[..k - 1];
      assert bases[..k][..k - 1] == bases[..k - 1];
    }
  }

  /** Row j of the Strauss pass evaluates to the scalar of wNAF j times base j. */
  lemma StraussRowValue(tables: seq<LookupTable>, nafs: seq<seq<int>>, n: nat, j: nat)
    requires |tables| == |nafs| && j < |nafs|
    requires forall l :: 0 <= l < |nafs| ==> |nafs[l]| <= n
    ensures Horner(StraussRows(tables, PadAll(nafs, n), n)[j][0..], 2)
         == ScalarMul(Base(tables[j]), Horner(nafs[j], 2))
  {
    var padded := PadAll(nafs, n);
    var row := StraussRows(tables, padded, n)[j];
    assert row[0..] == row;
    assert row == seq(|padded[j]|, i requires 0 <= i < |padded[j]| =>
      ScalarMul(Base(tables[j]), padded[j][i]));
    HornerScale(padded[j], Base(tables[j]), 2);
    PadAllKeepsValues(nafs, n, 2, j);
  }

  /** The rows of the Strauss pass sum to the inner product of scalars and bases. */
  lemma StraussRowsValue(tables: seq<LookupTable>, nafs: seq<seq<int>>, n: nat)
    requires |tables| == |nafs|
    requires forall j :: 0 <= j < |nafs| ==> |nafs[j]| <= n
    ensures RowSum(StraussRows(tables, PadAll(nafs, n), n), n, 2, 0, |nafs|)
         == InnerProduct(Values(nafs, 2), Bases(tables))
  {
    var c := StraussRows(tables, PadAll(nafs, n), n);
    var vals, bases := Values(nafs, 2), Bases(tables);
    forall j | 0 <= j < |c|
      ensures Horner(c[j][0..], 2) == ScalarMul(bases[j], vals[j])
    {
      StraussRowValue(tables, nafs, n, j);
    }
    RowSumIsInnerProduct(c, n, 2, vals, bases, |c|);
    assert vals[..|c|] == vals;
    assert bases[..|c|] == bases;
  }

  /** Every digit of every sequence is a width-5 wNAF digit. */
  predicate IsWnafDigits(ds: seq<seq<int>>)
  {
    forall j, i :: 0 <= j < |ds| && 0 <= i < |ds[j]| ==> IsWnafDigit(ds[j][i])
  }

  /** Padding with zeros keeps every digit a wNAF digit. */
  lemma PadAllWnaf(nafs: seq<seq<int>>, n: nat)
    requires IsWnafDigits(nafs)
    requires forall j :: 0 <= j < |nafs| ==> |nafs[j]| <= n
    ensures IsWnafDigits(PadAll(nafs, n))
  {
    var padded := PadAll(nafs, n);
    forall j, i | 0 <= j < |padded| && 0 <= i < |padded[j]| ensures IsWnafDigit(padded[j][i]) {
      if i < |nafs[j]| { assert padded[j][..|nafs[j]|][i] == nafs[j][i]; }
    }
  }

  /**
   * One position of the Strauss pass: double the accumulator, then add the
   * table entry of every positive digit and subtract the entry of the
   * negated digit for every negative one.
   */
  method StraussPosition(tables: seq<LookupTable>, padded: seq<seq<int>>, n: nat, i: nat, r: Point)
    returns (t: Point)
    requires |tables| == |padded| && IsWnafDigits(padded)
    requires forall j :: 0 <= j < |padded| ==> |padded[j]| == n
    requires i < n
    ensures t == Add(Double(r), ColumnSum(StraussRows(tables, padded, n), n, i, |padded|))
  {
    ghost var c := StraussRows(tables, padded, n);
    t := Double(r);
    for k := 0 to |padded|
      invariant t == Add(Double(r), ColumnSum(c, n, i, k))
    {
      var d := padded[k][i];
      ghost var b := Base(tables[k]);
      if d > 0 {
        t := Add(t, Select(tables[k], d));
      } else if d < 0 {
        ScalarMulNegate(b, d);
        t := Sub(t, Select(tables[k], -d));
      }
    }
  }

  /**
   * The interleaved double-and-add over padded wNAFs, from the most
   * significant position down: afterwards the accumulator holds the sum of
   * every row's value.
   */
  method StraussPass(tables: seq<LookupTable>, padded: seq<seq<int>>, n: nat) returns (acc: Point)
    requires |tables| == |padded| && IsWnafDigits(padded)
    requires forall j :: 0 <= j < |padded| ==> |padded[j]| == n
    ensures acc == RowSum(StraussRows(tables, padded, n), n, 2, 0, |padded|)
  {
    ghost var c := StraussRows(tables, padded, n);
    RowSumAtEnd(c, n, 2, |padded|);
    acc := Identity();
    var i := n;
    while i > 0
      invariant 0 <= i <= n
      invariant acc == RowSum(c, n, 2, i, |padded|)
    {
      i := i - 1;
      var t := StraussPosition(tables, padded, n, i, acc);
      RowStep(c, n, 2, i, |padded|);
      acc := t;
    }
  }

  /**
   * `multi_scalar_mul_var_time_with_precomputation_done`: fails when the
   * number of digit sequences differs from the number of tables; otherwise
   * pads the wNAFs to a common length and runs one interleaved pass, adding
   * or subtracting a table entry for every non-zero digit. The result is the
   * inner product of the encoded scalars with the tables' bases.
   */
  method MultiScalarMulVarTimeWithPrecomputationDone(tables: seq<LookupTable>, nafs: seq<seq<int>>)
    returns (r: Result<Point, ValueError>)
    requires IsWnafDigits(nafs)
    ensures |nafs| != |tables| ==> r == Failure(UnequalSizeVectors)
    ensures |nafs| == |tables| ==> r == Success(InnerProduct(Values(nafs, 2), Bases(tables)))
  {
    if |nafs| != |tables| {
      return Failure(UnequalSizeVectors);
    }
    var newLength := MaxLength(nafs);
    var padded := PadAll(nafs, newLength);
    PadAllWnaf(nafs, newLength);
    var acc := StraussPass(tables, padded, newLength);
    StraussRowsValue(tables, nafs, newLength);
    r := Success(acc);
  }

  /**
   * `multi_scalar_mul_var_time_without_precomputation`: builds one lookup
   * table per group element, then runs the Strauss pass.
   */
  method MultiScalarMulVarTimeWithoutPrecomputation(elems: seq<Point>, nafs: seq<seq<int>>)
    returns (r: Result<Point, ValueError>)
    requires IsWnafDigits(nafs)
    ensures |nafs| != |elems| ==> r == Failure(UnequalSizeVectors)
    ensures |nafs| == |elems| ==> r == Success(InnerProduct(Values(nafs, 2), elems))
  {
    var tables: seq<LookupTable> := [];
    for j := 0 to |elems|
      invariant |tables| == j && forall l :: 0 <= l < j ==> Base(tables[l]) == elems[l]
    {
      var t := From(elems[j]);
      tables := tables + [t];
    }
    assert Bases(tables) == elems;
    r := MultiScalarMulVarTimeWithPrecomputationDone(tables, nafs);
  }

  // ---------------------------------------------------------------------
  // Windowed simultaneous multiplication, base 8

  /** The point added for base-8 digit b: nothing for 0, m[b - 1] otherwise. */
  function DigitPoint(m: seq<Point>, b: int): Point
    requires 0 <= b < 8 && |m| >= 7
  {
    if b != 0 then m[b - 1] else Identity()
  }

  /** m holds the first seven multiples of m[0]: m[t] == (t + 1) * m[0]. */
  predicate IsMultiples(m: seq<Point>)
  {
    |m| >= 7 && forall t :: 0 <= t < 7 ==> m[t] == ScalarMul(m[0], t + 1)
  }

  predicate IsBase8Digits(ds: seq<seq<int>>)
  {
    forall j, i :: 0 <= j < |ds| && 0 <= i < |ds[j]| ==> 0 <= ds[j][i] < 8
  }

  /** The points base j adds at each position, from its digits. */
  function DigitPoints(m: seq<Point>, d: seq<int>): (c: seq<Point>)
    requires |m| >= 7 && forall i :: 0 <= i < |d| ==> 0 <= d[i] < 8
    ensures |c| == |d| && forall i :: 0 <= i < |d| ==> c[i] == DigitPoint(m, d[i])
  {
    seq(|d|, i requires 0 <= i < |d| => DigitPoint(m, d[i]))
  }

  /**
   * What the windowed pass computes for any precomputed lists: for each of
   * the first k bases, the base-8 evaluation of the points its digits
   * select, summed over those bases.
   */
  function WindowedSum(multiples: seq<seq<Point>>, digits: seq<seq<int>>, k: nat): Point
    requires |multiples| == |digits| && IsBase8Digits(digits) && k <= |digits|
    requires forall j :: 0 <= j < |multiples| ==> |multiples[j]| >= 7
  {
    if k == 0 then Identity()
    else Add(WindowedSum(multiples, digits, k - 1), Horner(DigitPoints(multiples[k - 1], digits[k - 1]), 8))
  }

  /** The first elements of the precomputed lists. */
  function Firsts(multiples: seq<seq<Point>>): (f: seq<Point>)
    requires forall j :: 0 <= j < |multiples| ==> |multiples[j]| >= 7
    ensures |f| == |multiples| && forall j :: 0 <= j < |f| ==> f[j] == multiples[j][0]
  {
    seq(|multiples|, j requires 0 <= j < |multiples| => multiples[j][0])
  }

  /**
   * With true multiples (as `get_multiples(7)` returns) the windowed sum is
   * the inner product of the base-8 values with the first elements.
   */
  lemma {:induction false} WindowedSumOfMultiples(multiples: seq<seq<Point>>, digits: seq<seq<int>>, k: nat)
    requires |multiples| == |digits| && IsBase8Digits(digits) && k <= |digits|
    requires forall j :: 0 <= j < |multiples| ==> |multiples[j]| >= 7 && IsMultiples(multiples[j])
    ensures WindowedSum(multiples, digits, k) == InnerProduct(Values(digits, 8)[..k], Firsts(multiples)[..k])
  {
    if k > 0 {
      WindowedSumOfMultiples(multiples, digits, k - 1);
      var m, d := multiples[k - 1], digits[k - 1];
      assert DigitPoints(m, d) == seq(|d|, i requires 0 <= i < |d| => ScalarMul(m[0], d[i]));
      HornerScale(d, m[0], 8);
      assert Values(digits, 8)[..k][..k - 1] == Values(digits, 8)[..k - 1];
      assert Firsts(multiples)[..k][..k - 1] == Firsts(multiples)[..k - 1];
    }
  }

  /** The whole windowed sum over true multiples. */
  lemma WindowedSumIsInnerProduct(multiples: seq<seq<Point>>, digits: seq<seq<int>>)
    requires |multiples| == |digits| && IsBase8Digits(digits)
    requires forall j :: 0 <= j < |multiples| ==> |multiples[j]| >= 7 && IsMultiples(multiples[j])
    ensures WindowedSum(multiples, digits, |digits|) == InnerProduct(Values(digits, 8), Firsts(multiples))
  {
    WindowedSumOfMultiples(multiples, digits, |digits|);
    assert Values(digits, 8)[..|digits|] == Values(digits, 8);
    assert Firsts(multiples)[..|digits|] == Firsts(multiples);
  }

  /** Rows of the windowed pass over the padded digits. */
  ghost function WindowRows(multiples: seq<seq<Point>>, padded: seq<seq<int>>, n: nat): (c: seq<seq<Point>>)
    requires |multiples| == |padded| && IsBase8Digits(padded)
    requires forall j :: 0 <= j < |multiples| ==> |multiples[j]| >= 7
    requires forall j :: 0 <= j < |padded| ==> |padded[j]| == n
    ensures |c| == |padded| && Rectangular(c, n)
    ensures forall j :: 0 <= j < |c| ==> c[j] == DigitPoints(multiples[j], padded[j])
  {
    seq(|padded|, j requires 0 <= j < |padded| => DigitPoints(multiples[j], padded[j]))
  }

  /** Padding with zeros keeps every digit in base 8. */
  lemma PadAllBase8(digits: seq<seq<int>>, n: nat)
    requires IsBase8Digits(digits)
    requires forall j :: 0 <= j < |digits| ==> |digits[j]| <= n
    ensures IsBase8Digits(PadAll(digits, n))
  {
    var padded := PadAll(digits, n);
    forall j, i | 0 <= j < |padded| && 0 <= i < |padded[j]| ensures 0 <= padded[j][i] < 8 {
      if i < |digits[j]| { assert padded[j][..|digits[j]|][i] == digits[j][i]; }
    }
  }

  /** The row of base k evaluates to what base k contributes to the windowed sum. */
  lemma WindowRowValue(multiples: seq<seq<Point>>, digits: seq<seq<int>>, n: nat, k: nat)
    requires |multiples| == |digits| && IsBase8Digits(digits) && k < |digits|
    requires forall j :: 0 <= j < |multiples| ==> |multiples[j]| >= 7
    requires forall j :: 0 <= j < |digits| ==> |digits[j]| <= n
    requires IsBase8Digits(PadAll(digits, n))
    ensures Horner(WindowRows(multiples, PadAll(digits, n), n)[k][0..], 8)
         == Horner(DigitPoints(multiples[k], digits[k]), 8)
  {
    var m, d := multiples[k], digits[k];
    var padded := PadAll(digits, n);
    var row := WindowRows(multiples, padded, n)[k];
    assert row[0..] == row;
    assert padded[k] == d + seq(n - |d|, _ => 0);
    assert row == DigitPoints(m, d) + seq(n - |d|, _ => 0);
    HornerPadZeros(DigitPoints(m, d), 8, n - |d|);
  }

  /**
   * Rows whose values match the digit sequences' evaluations sum to the
   * windowed sum, for any such rows.
   */
  lemma {:induction false} RowSumIsWindowedSum(multiples: seq<seq<Point>>, digits: seq<seq<int>>, c: seq<seq<Point>>, n: nat, k: nat)
    requires |multiples| == |digits| && IsBase8Digits(digits) && k <= |digits|
    requires forall j :: 0 <= j < |multiples| ==> |multiples[j]| >= 7
    requires Rectangular(c, n) && |c| == |digits|
    requires forall j :: 0 <= j < |c| ==> Horner(c[j][0..], 8) == Horner(DigitPoints(multiples[j], digits[j]), 8)
    ensures RowSum(c, n, 8, 0, k) == WindowedSum(multiples, digits, k)
  {
    if k > 0 {
      RowSumIsWindowedSum(multiples, digits, c, n, k - 1);
    }
  }

  /** The rows of the windowed pass sum to the windowed sum. */
  lemma WindowRowsValue(multiples: seq<seq<Point>>, digits: seq<seq<int>>, n: nat)
    requires |multiples| == |digits| && IsBase8Digits(digits)
    requires forall j :: 0 <= j < |multiples| ==> |multiples[j]| >= 7
    requires forall j :: 0 <= j < |digits| ==> |digits[j]| <= n
    requires IsBase8Digits(PadAll(digits, n))
    ensures RowSum(WindowRows(multiples, PadAll(digits, n), n), n, 8, 0, |digits|)
         == WindowedSum(multiples, digits, |digits|)
  {
    var c := WindowRows(multiples, PadAll(digits, n), n);
    forall j | 0 <= j < |c|
      ensures Horner(c[j][0..], 8) == Horner(DigitPoints(multiples[j], digits[j]), 8)
    {
      WindowRowValue(multiples, digits, n, j);
    }
    RowSumIsWindowedSum(multiples, digits, c, n, |digits|);
  }

  /**
   * One position of the windowed pass: three doublings (multiplication by
   * 2^3), then for every non-zero digit b the addition of m[b - 1].
   */
  method WindowPosition(multiples: seq<seq<Point>>, padded: seq<seq<int>>, n: nat, i: nat, r: Point)
    returns (acc: Point)
    requires |multiples| == |padded| && IsBase8Digits(padded)
    requires forall j :: 0 <= j < |multiples| ==> |multiples[j]| >= 7
    requires forall j :: 0 <= j < |padded| ==> |padded[j]| == n
    requires i < n
    ensures acc == Add(ScalarMul(r, 8), ColumnSum(WindowRows(multiples, padded, n), n, i, |padded|))
  {
    ghost var c := WindowRows(multiples, padded, n);
    acc := Double(r);
    acc := Double(acc);
    acc := Double(acc);
    for k := 0 to |padded|
      invariant acc == Add(ScalarMul(r, 8), ColumnSum(c, n, i, k))
    {
      var b := padded[k][i];
      if b != 0 {
        acc := Add(acc, multiples[k][b - 1]);
      }
    }
  }

  /**
   * The windowed pass over padded base-8 digits, from the most significant
   * position down: afterwards the accumulator holds the sum of every row's
   * value.
   */
  method WindowedPass(multiples: seq<seq<Point>>, padded: seq<seq<int>>, n: nat) returns (acc: Point)
    requires |multiples| == |padded| && IsBase8Digits(padded)
    requires forall j :: 0 <= j < |multiples| ==> |multiples[j]| >= 7
    requires forall j :: 0 <= j < |padded| ==> |padded[j]| == n
    ensures acc == RowSum(WindowRows(multiples, padded, n), n, 8, 0, |padded|)
  {
    ghost var c := WindowRows(multiples, padded, n);
    RowSumAtEnd(c, n, 8, |padded|);
    acc := Identity();
    var i := n;
    while i > 0
      invariant 0 <= i <= n
      invariant acc == RowSum(c, n, 8, i, |padded|)
    {
      i := i - 1;
      var t := WindowPosition(multiples, padded, n, i, acc);
      RowStep(c, n, 8, i, |padded|);
      acc := t;
    }
  }

  /**
   * `multi_scalar_mul_const_time_with_precomputation_done`: fails when the
   * number of precomputed lists differs from the number of digit sequences;
   * otherwise pads the base-8 digits to a common length and, per position
   * from the most significant, doubles the accumulator three times and adds
   * m[b - 1] for every non-zero digit b. With lists of true multiples the
   * result is the inner product of the encoded scalars with the elements.
   */
  method MultiScalarMulConstTimeWithPrecomputationDone(multiples: seq<seq<Point>>, digits: seq<seq<int>>)
    returns (r: Result<Point, ValueError>)
    requires forall j :: 0 <= j < |multiples| ==> |multiples[j]| >= 7
    requires IsBase8Digits(digits)
    ensures |multiples| != |digits| ==> r == Failure(UnequalSizeVectors)
    ensures |multiples| == |digits| ==> r == Success(WindowedSum(multiples, digits, |digits|))
    ensures |multiples| == |digits| && (forall j :: 0 <= j < |multiples| ==> IsMultiples(multiples[j])) ==>
      r == Success(InnerProduct(Values(digits, 8), Firsts(multiples)))
  {
    if |multiples| != |digits| {
      return Failure(UnequalSizeVectors);
    }
    var newLength := MaxLength(digits);
    var padded := PadAll(digits, newLength);
    PadAllBase8(digits, newLength);
    var acc := WindowedPass(multiples, padded, newLength);
    WindowRowsValue(multiples, digits, newLength);
    r := Success(acc);
    if forall j :: 0 <= j < |multiples| ==> IsMultiples(multiples[j]) {
      WindowedSumIsInnerProduct(multiples, digits);
    }
  }

  /**
   * `multi_scalar_mul_const_time_without_precomputation`: precomputes the
   * first seven multiples of every element (window of 3 bits), then runs the
   * windowed pass.
   */
  method MultiScalarMulConstTimeWithoutPrecomputation(elems: seq<Point>, digits: seq<seq<int>>)
    returns (r: Result<Point, ValueError>)
    requires IsBase8Digits(digits)
    ensures |elems| != |digits| ==> r == Failure(UnequalSizeVectors)
    ensures |elems| == |digits| ==> r == Success(InnerProduct(Values(digits, 8), elems))
  {
    var multiples: seq<seq<Point>> := [];
    for j := 0 to |elems|
      invariant |multiples| == j
      invariant forall l :: 0 <= l < j ==> IsMultiples(multiples[l]) && multiples[l][0] == elems[l]
    {
      var m := GetMultiples(elems[j], 7);
      multiples := multiples + [m];
    }
    assert Firsts(multiples) == elems;
    r := MultiScalarMulConstTimeWithPrecomputationDone(multiples, digits);
  }

  // ---------------------------------------------------------------------
  // Naive

  /**
   * `multi_scalar_mul_const_time_naive`: fails on a length mismatch;
   * otherwise adds up the n constant-time scalar multiplications.
   */
  method MultiScalarMulConstTimeNaive(elems: seq<Point>, scalars: seq<int>)
    returns (r: Result<Point, ValueError>)
    ensures |scalars| != |elems| ==> r == Failure(UnequalSizeVectors)
    ensures |scalars| == |elems| ==> r == Success(InnerProduct(scalars, elems))
  {
    if |scalars| != |elems| {
      return Failure(UnequalSizeVectors);
    }
    var accum := Identity();
    for i := 0 to |elems|
      invariant accum == InnerProduct(scalars[..i], elems[..i])
    {
      assert scalars[..i + 1][..i] == scalars[..i] && elems[..i + 1][..i] == elems[..i];
      accum := Add(accum, ScalarMul(elems[i], scalars[i]));
    }
    assert scalars[..|elems|] == scalars && elems[..|elems|] == elems;
    r := Success(accum);
  }

  /**
   * The three strategies agree: for equal-length inputs whose wNAF and
   * base-8 digits encode the given scalars, the naive, Strauss and windowed
   * results are the same element.
   */
  method StrategiesAgree(elems: seq<Point>, scalars: seq<int>, nafs: seq<seq<int>>, digits: seq<seq<int>>)
    returns (naive: Result<Point, ValueError>, varTime: Result<Point, ValueError>, constTime: Result<Point, ValueError>)
    requires |nafs| == |scalars| && |digits| == |scalars|
    requires IsWnafDigits(nafs)
    requires IsBase8Digits(digits)
    requires forall j :: 0 <= j < |scalars| ==> Horner(nafs[j], 2) == scalars[j] && Horner(digits[j], 8) == scalars[j]
    ensures naive == varTime == constTime
    ensures naive.Success? <==> |elems| == |scalars|
  {
    naive := MultiScalarMulConstTimeNaive(elems, scalars);
    varTime := MultiScalarMulVarTimeWithoutPrecomputation(elems, nafs);
    constTime := MultiScalarMulConstTimeWithoutPrecomputation(elems, digits);
    assert Values(nafs, 2) == scalars && Values(digits, 8) == scalars;
  }
}
