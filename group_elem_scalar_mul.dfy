/**
 * Variable-time scalar multiplication by the windowed non-adjacent form, and
 * the list of small multiples used by the constant-time windowed
 * multi-scalar multiplication.
 *
 * The wNAF of a scalar (its `to_wnaf(5)`) is computed by the scalar field
 * type outside this core, so it is an input here; its value is
 * `Horner(wnaf, 2)`.
 */
module WnafScalarMul {
  import opened Group
  import opened LookupTables

  /**
   * Folds the digits from the last (most significant) to the first: one
   * doubling per digit, then add the table entry for a positive digit,
   * subtract the entry for the negated digit when it is negative, and
   * nothing for a zero digit. The result is the base times the value of the
   * digits.
   */
  method WnafMul(table: LookupTable, wnaf: seq<int>) returns (result: Point)
    requires forall i :: 0 <= i < |wnaf| ==> IsWnafDigit(wnaf[i])
    ensures result == ScalarMul(Base(table), Horner(wnaf, 2))
  {
    result := Identity();
    var n := |wnaf|;
    while n > 0
      invariant 0 <= n <= |wnaf|
      invariant result == ScalarMul(Base(table), Horner(wnaf[n..], 2))
    {
      n := n - 1;
      ghost var h := Horner(wnaf[n + 1..], 2);
      result := Double(result);
      var v := wnaf[n];
      DoubleAndAdd(Base(table), h, v);
      if v > 0 {
        result := Add(result, Select(table, v));
      } else if v < 0 {
        result := Sub(result, Select(table, -v));
      }
      HornerAt(wnaf, 2, n);
    }
  }

  /** One doubling of h * a followed by adding (or subtracting) |v| * a gives (v + 2h) * a. */
  lemma DoubleAndAdd(a: Point, h: int, v: int)
    ensures Add(Double(ScalarMul(a, h)), ScalarMul(a, v)) == ScalarMul(a, v + 2 * h)
    ensures Sub(Double(ScalarMul(a, h)), ScalarMul(a, -v)) == ScalarMul(a, v + 2 * h)
    ensures v == 0 ==> Double(ScalarMul(a, h)) == ScalarMul(a, v + 2 * h)
  {
  }

  /**
   * `scalar_mul_variable_time`: builds the lookup table of `a` and folds the
   * scalar's wNAF into it. Equal to the constant-time product whenever the
   * digits are the wNAF of the scalar.
   */
  method ScalarMulVariableTime(a: Point, wnaf: seq<int>) returns (r: Point)
    requires forall i :: 0 <= i < |wnaf| ==> IsWnafDigit(wnaf[i])
    ensures r == ScalarMul(a, Horner(wnaf, 2))
  {
    var table := From(a);
    r := WnafMul(table, wnaf);
  }

  /**
   * The lookup table for a window width. Only width 5 is supported, but the
   * width is checked by a debug assertion alone, so a release build returns
   * the width-5 table whatever width is asked for.
   */
  method ToWnafLookupTable(a: Point, width: nat) returns (t: LookupTable)
    ensures Base(t) == a
    ensures forall i :: 0 <= i < 8 ==> t.entries[i] == ScalarMul(a, 2 * i + 1)
  {
    t := From(a);
  }

  /**
   * `get_multiples(n)`: starts from [a] and pushes res[i - 2] + a for
   * i = 2..n, so the j-th element is (j + 1) * a. For n = 0 the result is
   * still the single element [a].
   */
  method GetMultiples(a: Point, n: nat) returns (res: seq<Point>)
    ensures |res| == if n == 0 then 1 else n
    ensures forall j :: 0 <= j < |res| ==> res[j] == ScalarMul(a, j + 1)
  {
    res := [a];
    var i := 2;
    while i <= n
      invariant 2 <= i
      invariant if n < 2 then i == 2 else i <= n + 1
      invariant |res| == i - 1
      invariant forall j :: 0 <= j < |res| ==> res[j] == ScalarMul(a, j + 1)
    {
      res := res + [Add(res[i - 2], a)];
      i := i + 1;
    }
  }
}
