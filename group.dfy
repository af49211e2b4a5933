/**
 * The group abstraction the core is written against. A curve point of G1 or
 * G2 is represented by its discrete logarithm with respect to a fixed
 * generator, so the foreign point primitives become integer arithmetic:
 * the identity is 0, point addition is +, doubling is 2*, negation is unary
 * minus and the constant-time scalar multiplication of the curve library is
 * s * p. Reduction modulo the group order is not applied; every equality
 * proved over the integers also holds after reduction.
 */
module Group {

  /** A group element, given by its discrete logarithm. */
  type Point = int

  function Identity(): Point { 0 }

  predicate IsIdentity(p: Point) { p == 0 }

  function Add(p: Point, q: Point): Point { p + q }

  function Sub(p: Point, q: Point): Point { p - q }

  function Double(p: Point): Point { p + p }

  function Neg(p: Point): Point { -p }

  /** The curve library's constant-time scalar multiplication `p * s`. */
  function ScalarMul(p: Point, s: int): Point { s * p }

  /** Multiplying by a negated scalar negates the product. */
  lemma ScalarMulNegate(p: Point, s: int)
    ensures ScalarMul(p, -s) == Neg(ScalarMul(p, s))
  {
  }

  /**
   * Value of a little-endian digit sequence in the given radix:
   * d[0] + radix * d[1] + radix^2 * d[2] + ...
   * For a wNAF the radix is 2, for the base-8 windowed form it is 8. The same
   * evaluation applied to a sequence of points gives the point a
   * double-and-add fold over those contributions produces.
   */
  function Horner(d: seq<int>, radix: int): int
  {
    if |d| == 0 then 0 else d[0] + radix * Horner(d[1..], radix)
  }

  /** One step of the evaluation taken at an interior position. */
  lemma HornerAt(d: seq<int>, radix: int, i: nat)
    requires i < |d|
    ensures Horner(d[i..], radix) == d[i] + radix * Horner(d[i + 1..], radix)
  {
    assert d[i..][1..] == d[i + 1..];
  }

  /** Zero digits appended at the most significant end change no value. */
  lemma {:induction false} HornerPadZeros(d: seq<int>, radix: int, extra: nat)
    ensures Horner(d + seq(extra, _ => 0), radix) == Horner(d, radix)
  {
    if |d| == 0 {
      HornerZeros(extra, radix);
      assert d + seq(extra, _ => 0) == seq(extra, _ => 0);
    } else {
      assert (d + seq(extra, _ => 0))[1..] == d[1..] + seq(extra, _ => 0);
      HornerPadZeros(d[1..], radix, extra);
    }
  }

  lemma {:induction false} HornerZeros(n: nat, radix: int)
    ensures Horner(seq(n, _ => 0), radix) == 0
  {
    if n > 0 {
      assert seq(n, _ => 0)[1..] == seq(n - 1, _ => 0);
      HornerZeros(n - 1, radix);
    }
  }

  /** Evaluating the multiples d[i] * a is the multiple of a by the value of d. */
  lemma {:induction false} HornerScale(d: seq<int>, a: Point, radix: int)
    ensures Horner(seq(|d|, i requires 0 <= i < |d| => ScalarMul(a, d[i])), radix)
         == ScalarMul(a, Horner(d, radix))
  {
    var c := seq(|d|, i requires 0 <= i < |d| => ScalarMul(a, d[i]));
    if |d| > 0 {
      assert c[1..] == seq(|d[1..]|, i requires 0 <= i < |d[1..]| => ScalarMul(a, d[1..][i]));
      HornerScale(d[1..], a, radix);
      var h := Horner(d[1..], radix);
      assert Horner(c, radix) == d[0] * a + radix * (h * a);
      MulStep(d[0], radix, h, a);
    }
  }

  /** d0 * a + radix * (h * a) == (d0 + radix * h) * a, kept apart from the induction. */
  lemma MulStep(d0: int, radix: int, h: int, a: int)
    ensures d0 * a + radix * (h * a) == (d0 + radix * h) * a
  {
    assert radix * (h * a) == (radix * h) * a;
  }

  /** Sum of the elements of a vector of points, starting from the identity. */
  function SumOf(v: seq<Point>): Point
  {
    if |v| == 0 then Identity() else Add(SumOf(v[..|v| - 1]), v[|v| - 1])
  }

  /**
   * Inner product of a scalar vector with a point vector:
   * s[0] * p[0] + s[1] * p[1] + ... (the multi-scalar multiplication).
   */
  function InnerProduct(s: seq<int>, p: seq<Point>): Point
    requires |s| == |p|
  {
    if |s| == 0 then Identity()
    else Add(InnerProduct(s[..|s| - 1], p[..|p| - 1]), ScalarMul(p[|p| - 1], s[|s| - 1]))
  }
}
