/**
 * Vectors of group elements: the element-wise operations, which fail on
 * vectors of different lengths, in-place and copying scaling (constant time
 * and by wNAF), splitting, summing and equality.
 *
 * The vector wraps a growable list that `scale` and `scale_var_time`
 * overwrite element by element; it is a class with a sequence field. The
 * operations that build a new vector return the sequence of its elements.
 * The parallel iterators of the source are sequential loops here.
 */
module GroupElemVector {
  import opened Group
  import opened Wrappers
  import opened LookupTables
  import opened WnafScalarMul

  // ---------------------------------------------------------------------
  // Specification functions

  /** Every element multiplied by the same scalar. */
  function Scaled(v: seq<Point>, n: int): (s: seq<Point>)
    ensures |s| == |v| && forall i :: 0 <= i < |v| ==> s[i] == ScalarMul(v[i], n)
  {
    seq(|v|, i requires 0 <= i < |v| => ScalarMul(v[i], n))
  }

  /** Element-wise group operation of two equal-length vectors. */
  function Added(a: seq<Point>, b: seq<Point>): (s: seq<Point>)
    requires |a| == |b|
    ensures |s| == |a| && forall i :: 0 <= i < |a| ==> s[i] == Add(a[i], b[i])
  {
    seq(|a|, i requires 0 <= i < |a| => Add(a[i], b[i]))
  }

  /** Element-wise difference of two equal-length vectors. */
  function Subtracted(a: seq<Point>, b: seq<Point>): (s: seq<Point>)
    requires |a| == |b|
    ensures |s| == |a| && forall i :: 0 <= i < |a| ==> s[i] == Sub(a[i], b[i])
  {
    seq(|a|, i requires 0 <= i < |a| => Sub(a[i], b[i]))
  }

  // ---------------------------------------------------------------------
  // Properties of the specification functions

  /** Subtracting b undoes adding b, element by element. */
  lemma SubtractedUndoesAdded(a: seq<Point>, b: seq<Point>)
    requires |a| == |b|
    ensures Subtracted(Added(a, b), b) == a
  {
  }

  /** The sum of a concatenation is the sum of the sums of its parts. */
  lemma {:induction false} SumOfAppend(a: seq<Point>, b: seq<Point>)
    ensures SumOf(a + b) == Add(SumOf(a), SumOf(b))
  {
    if |b| > 0 {
      SumOfAppend(a, b[..|b| - 1]);
      assert (a + b)[..|a + b| - 1] == a + b[..|b| - 1];
    } else {
      assert a + b == a;
    }
  }

  /** The sum of an element-wise sum is the sum of the two sums. */
  lemma {:induction false} SumOfAdded(a: seq<Point>, b: seq<Point>)
    requires |a| == |b|
    ensures SumOf(Added(a, b)) == Add(SumOf(a), SumOf(b))
  {
    if |a| > 0 {
      var k := |a| - 1;
      SumOfAdded(a[..k], b[..k]);
      assert Added(a, b)[..k] == Added(a[..k], b[..k]);
    }
  }

  /** Scaling every element scales the sum by the same factor. */
  lemma {:induction false} SumOfScaled(v: seq<Point>, n: int)
    ensures SumOf(Scaled(v, n)) == ScalarMul(SumOf(v), n)
  {
    if |v| > 0 {
      var k := |v| - 1;
      SumOfScaled(v[..k], n);
      assert Scaled(v, n)[..k] == Scaled(v[..k], n);
    }
  }

  /** Removing one element takes exactly that element off the sum. */
  lemma SumOfRemove(v: seq<Point>, j: nat)
    requires j < |v|
    ensures SumOf(v) == Add(SumOf(v[..j] + v[j + 1..]), v[j])
  {
    assert v == (v[..j] + [v[j]]) + v[j + 1..];
    SumOfAppend(v[..j] + [v[j]], v[j + 1..]);
    SumOfAppend(v[..j], [v[j]]);
    SumOfAppend(v[..j], v[j + 1..]);
    assert ([v[j]])[..0] == [];
  }

  /**
   * The sum does not depend on the order of the elements, so the parallel
   * reduction of `sum` yields the same element as a sequential fold.
   */
  lemma {:induction false} SumOfPermutation(a: seq<Point>, b: seq<Point>)
    requires multiset(a) == multiset(b)
    ensures SumOf(a) == SumOf(b)
  {
    if |a| > 0 {
      var k := |a| - 1;
      var x := a[k];
      assert x in multiset(b);
      var j :| 0 <= j < |b| && b[j] == x;
      var rest := b[..j] + b[j + 1..];
      assert b == b[..j] + [b[j]] + b[j + 1..];
      assert a == a[..k] + [x];
      calc {
        multiset(a[..k]) + multiset{x};
        multiset(a);
        multiset(b);
        multiset(b[..j]) + multiset{x} + multiset(b[j + 1..]);
        multiset(rest) + multiset{x};
      }
      assert multiset(a[..k]) == (multiset(a[..k]) + multiset{x}) - multiset{x};
      assert multiset(rest) == (multiset(rest) + multiset{x}) - multiset{x};
      SumOfPermutation(a[..k], rest);
      SumOfRemove(b, j);
    } else {
      assert |b| == |multiset(b)| == 0;
    }
  }

  /** The two halves returned by `split_at`, as pure values. */
  function SplitAt(v: seq<Point>, mid: nat): (halves: (seq<Point>, seq<Point>))
    requires mid <= |v|
    ensures |halves.0| == mid && |halves.1| == |v| - mid
    ensures halves.0 + halves.1 == v
  {
    (v[..mid], v[mid..])
  }

  /** The sums of the two halves add up to the sum of the vector. */
  lemma SplitAtSum(v: seq<Point>, mid: nat)
    requires mid <= |v|
    ensures Add(SumOf(SplitAt(v, mid).0), SumOf(SplitAt(v, mid).1)) == SumOf(v)
  {
    SumOfAppend(v[..mid], v[mid..]);
  }

  // ---------------------------------------------------------------------
  // The vector

  class GroupElementVector {
    var elems: seq<Point>

    constructor(elems: seq<Point>)
      ensures this.elems == elems
    {
      this.elems := elems;
    }

    /** `sum`: the group sum of all elements, the identity for none. */
    method Sum() returns (s: Point)
      ensures s == SumOf(elems)
    {
      s := Identity();
      for i := 0 to |elems|
        invariant s == SumOf(elems[..i])
      {
        assert elems[..i + 1][..i] == elems[..i];
        s := Add(s, elems[i]);
      }
      assert elems[..|elems|] == elems;
    }

    /** `scale`: overwrites every element with its product by n. */
    method Scale(n: int)
      modifies this
      ensures elems == Scaled(old(elems), n)
    {
      for i := 0 to |elems|
        invariant |elems| == |old(elems)|
        invariant forall j :: 0 <= j < i ==> elems[j] == ScalarMul(old(elems)[j], n)
        invariant forall j :: i <= j < |elems| ==> elems[j] == old(elems)[j]
      {
        elems := elems[i := ScalarMul(elems[i], n)];
      }
    }

    /** `scaled_by`: a new vector holding every element times n. */
    method ScaledBy(n: int) returns (scaled: seq<Point>)
      ensures scaled == Scaled(elems, n)
    {
      scaled := [];
      for i := 0 to |elems|
        invariant scaled == Scaled(elems[..i], n)
      {
        scaled := scaled + [ScalarMul(elems[i], n)];
      }
      assert elems[..|elems|] == elems;
    }

    /**
     * `scale_var_time`: computes the wNAF of the factor once and replaces
     * every element by the wNAF fold over its own lookup table. For the wNAF
     * of n this is the same vector `scale(n)` produces.
     */
    method ScaleVarTime(wnaf: seq<int>)
      requires forall i :: 0 <= i < |wnaf| ==> IsWnafDigit(wnaf[i])
      modifies this
      ensures elems == Scaled(old(elems), Horner(wnaf, 2))
    {
      for i := 0 to |elems|
        invariant |elems| == |old(elems)|
        invariant forall j :: 0 <= j < i ==> elems[j] == ScalarMul(old(elems)[j], Horner(wnaf, 2))
        invariant forall j :: i <= j < |elems| ==> elems[j] == old(elems)[j]
      {
        var table := From(elems[i]);
        var e := WnafMul(table, wnaf);
        elems := elems[i := e];
      }
    }

    /** `scaled_by_var_time`: scales a copy by wNAF and leaves this vector as it is. */
    method ScaledByVarTime(wnaf: seq<int>) returns (scaled: seq<Point>)
      requires forall i :: 0 <= i < |wnaf| ==> IsWnafDigit(wnaf[i])
      ensures scaled == Scaled(elems, Horner(wnaf, 2))
    {
      var copy := new GroupElementVector(elems);
      copy.ScaleVarTime(wnaf);
      scaled := copy.elems;
    }

    /**
     * `plus`: fails on a length mismatch, otherwise a new vector of the same
     * length with element i the sum of the elements i.
     */
    method Plus(b: GroupElementVector) returns (r: Result<seq<Point>, ValueError>)
      ensures |elems| != |b.elems| ==> r == Failure(UnequalSizeVectors)
      ensures |elems| == |b.elems| ==> r == Success(Added(elems, b.elems))
    {
      if |elems| != |b.elems| {
        return Failure(UnequalSizeVectors);
      }
      var sum := new Point[|elems|](_ => Identity());
      for i := 0 to |elems|
        invariant forall j :: 0 <= j < i ==> sum[j] == Add(elems[j], b.elems[j])
      {
        sum[i] := Add(elems[i], b.elems[i]);
      }
      assert sum[..] == Added(elems, b.elems);
      r := Success(sum[..]);
    }

    /**
     * `minus`: fails on a length mismatch, otherwise a new vector of the same
     * length with element i the difference of the elements i.
     */
    method Minus(b: GroupElementVector) returns (r: Result<seq<Point>, ValueError>)
      ensures |elems| != |b.elems| ==> r == Failure(UnequalSizeVectors)
      ensures |elems| == |b.elems| ==> r == Success(Subtracted(elems, b.elems))
    {
      if |elems| != |b.elems| {
        return Failure(UnequalSizeVectors);
      }
      var diff := new Point[|elems|](_ => Identity());
      for i := 0 to |elems|
        invariant forall j :: 0 <= j < i ==> diff[j] == Sub(elems[j], b.elems[j])
      {
        diff[i] := Sub(elems[i], b.elems[i]);
      }
      assert diff[..] == Subtracted(elems, b.elems);
      r := Success(diff[..]);
    }

    /**
     * `hadamard_product`: the element-wise group operation, which for curve
     * points is point addition; it fails on a length mismatch.
     */
    method HadamardProduct(b: GroupElementVector) returns (r: Result<seq<Point>, ValueError>)
      ensures |elems| != |b.elems| ==> r == Failure(UnequalSizeVectors)
      ensures |elems| == |b.elems| ==> r == Success(Added(elems, b.elems))
    {
      if |elems| != |b.elems| {
        return Failure(UnequalSizeVectors);
      }
      var product := new Point[|elems|](_ => Identity());
      for i := 0 to |elems|
        invariant forall j :: 0 <= j < i ==> product[j] == Add(elems[j], b.elems[j])
      {
        product[i] := Add(elems[i], b.elems[i]);
      }
      assert product[..] == Added(elems, b.elems);
      r := Success(product[..]);
    }

    /**
     * Vector equality: false on different lengths, otherwise false at the
     * first differing position and true when there is none.
     */
    method Equals(other: GroupElementVector) returns (eq: bool)
      ensures eq <==> elems == other.elems
    {
      if |elems| != |other.elems| {
        return false;
      }
      for i := 0 to |elems|
        invariant elems[..i] == other.elems[..i]
      {
        if elems[i] != other.elems[i] {
          return false;
        }
      }
      assert elems == elems[..|elems|];
      return true;
    }
  }

  /**
   * Scaling in place by wNAF and by the constant-time product give the same
   * vector when the digits encode the factor, and the original vectors of
   * both are unchanged by the copying variants.
   */
  method ScaleVarTimeAgreesWithScale(v: seq<Point>, n: int, wnaf: seq<int>)
    returns (byScale: seq<Point>, byWnaf: seq<Point>)
    requires forall i :: 0 <= i < |wnaf| ==> IsWnafDigit(wnaf[i])
    requires Horner(wnaf, 2) == n
    ensures byScale == byWnaf == Scaled(v, n)
  {
    var a := new GroupElementVector(v);
    var b := new GroupElementVector(v);
    a.Scale(n);
    b.ScaleVarTime(wnaf);
    byScale, byWnaf := a.elems, b.elems;
  }
}
