/**
 * Barrett modular reduction, Algorithm 14.42 of the Handbook of Applied
 * Cryptography with base b = 2, over the curve library's single- and
 * double-width big numbers, modelled as natural numbers.
 *
 * For a modulus m of k bits the parameters are u = floor(2^(2k) / m) and
 * v = 2^(k+1). The algorithm estimates the quotient q3 of x by m from the
 * top bits of x, then takes x - q3 * m modulo a window 2^w with a borrow
 * correction by v, and finally subtracts m until the value is below m.
 * The source uses the window w = k + 1; since x - q3 * m can be as large as
 * 3m - 1, which for base 2 may reach 2^(k+1), that window can lose a
 * multiple of 2^(k+1). `BarrettReductionCorrected` uses w = k + 2.
 */
module Barrett {

  function Pow2(n: nat): (p: nat)
    ensures p >= 1
  {
    if n == 0 then 1 else 2 * Pow2(n - 1)
  }

  lemma {:induction false} Pow2Add(a: nat, b: nat)
    ensures Pow2(a + b) == Pow2(a) * Pow2(b)
  {
    if a > 0 {
      Pow2Add(a - 1, b);
      assert Pow2(a + b) == 2 * Pow2(a - 1 + b);
    }
  }

  lemma {:induction false} Pow2Monotone(a: nat, b: nat)
    requires a <= b
    ensures Pow2(a) <= Pow2(b)
  {
    if a < b {
      Pow2Monotone(a, b - 1);
    }
  }

  /** `nbits`: the number of bits of n, 0 for 0. */
  function BitLength(n: nat): (k: nat)
    ensures n == 0 ==> k == 0
    ensures n > 0 ==> k >= 1 && Pow2(k - 1) <= n < Pow2(k)
  {
    if n == 0 then 0 else 1 + BitLength(n / 2)
  }

  // ---------------------------------------------------------------------
  // Arithmetic helpers

  lemma MulMonotone(a: int, b: int, c: int)
    requires a <= b && 0 <= c
    ensures a * c <= b * c
  {
  }

  lemma MulStrict(a: int, b: int, c: int)
    requires a < b && 0 < c
    ensures a * c < b * c
  {
  }

  /** Quotient and remainder are determined by n == q * d + r with 0 <= r < d. */
  lemma DivModUnique(n: int, d: int, q: int, r: int)
    requires d > 0 && 0 <= r < d && n == q * d + r
    ensures n / d == q && n % d == r
  {
    var q0, r0 := n / d, n % d;
    assert (q - q0) * d == r0 - r;
    if q - q0 >= 1 {
      MulMonotone(1, q - q0, d);
    } else if q - q0 <= -1 {
      MulMonotone(q - q0, -1, d);
    }
  }

  lemma DivBounds(n: int, d: int)
    requires d > 0
    ensures (n / d) * d <= n < (n / d) * d + d
  {
  }

  /** A lower bound t * d <= n bounds the quotient: t <= n / d. */
  lemma DivLowerBound(n: int, d: int, t: int)
    requires d > 0 && t * d <= n
    ensures t <= n / d
  {
    if t > n / d {
      MulMonotone(n / d + 1, t, d);
    }
  }

  /** Dividing a natural number by a positive one does not increase it. */
  lemma DivAtMost(n: int, d: int)
    requires n >= 0 && d >= 1
    ensures n / d <= n
  {
    DivBounds(n, d);
    MulMonotone(1, d, n / d);
  }

  lemma DivNonneg(n: int, d: int)
    requires n >= 0 && d > 0
    ensures n / d >= 0
  {
  }

  lemma MulNonneg(a: int, b: int)
    requires a >= 0 && b >= 0
    ensures a * b >= 0
  {
  }

  lemma Rearrange(t: int, Q: int, P: int, m: int)
    ensures t * Q * (P * m) == t * m * (P * Q)
  {
    calc {
      t * Q * (P * m);
      t * (Q * (P * m));
      { assert Q * (P * m) == m * (P * Q); }
      t * (m * (P * Q));
      t * m * (P * Q);
    }
  }

  /** q3 * m <= x, from the floors in q1, u and q3 (all quantities plain integers). */
  lemma UpperCore(x: int, m: int, P: int, Q: int, W: int, u: int, q1: int, q3: int)
    requires 0 <= x && 0 < m && 0 < P && 0 < Q && W == P * Q && 0 <= q1 && 0 <= u && 0 <= q3
    requires q1 * P <= x && u * m <= W && q3 * Q <= q1 * u
    ensures q3 * m <= x
  {
    MulMonotone(q3 * Q, q1 * u, m);
    MulMonotone(u * m, W, q1);
    MulMonotone(q1 * P, x, Q);
    assert (q3 * m) * Q == (q3 * Q) * m;
    assert (q1 * u) * m == (u * m) * q1;
    assert W * q1 == (q1 * P) * Q;
    if q3 * m > x {
      MulStrict(x, q3 * m, Q);
    }
  }

  lemma Expand(a: int, b: int, c: int, d: int)
    ensures (a - b) * (c - d) == a * c - a * d - b * c + b * d
  {
  }

  lemma Regroup(q1: int, P: int, u: int, m: int)
    ensures (q1 * P) * (u * m) == (q1 * u) * (P * m)
  {
  }

  lemma MulAddConst(t: int, c: int, m: int, W: int)
    ensures (t + c) * m * W == t * m * W + c * (m * W)
  {
  }

  /** x < (q3 + 3) * m, from the floors in q1, u and q3 and x < W, P <= m. */
  lemma LowerCore(x: int, m: int, P: int, Q: int, W: int, u: int, q1: int, q3: int)
    requires 0 <= x < W && P <= m && 0 < m <= W && 0 < P && 0 < Q && W == P * Q
    requires 0 <= q1 && 0 <= u && 0 <= q3
    requires x < q1 * P + P && W < u * m + m && q1 * u < q3 * Q + Q
    ensures x < (q3 + 3) * m
  {
    if x < P {
      return;
    }
    var A, B := q1 * P, u * m;
    var lhs := (x - P) * (W - m);
    assert lhs <= A * B by {
      MulMonotone(x - P, A, W - m);
      MulMonotone(W - m, B, A);
    }
    var base := q3 * m * W;
    var mW := m * W;
    assert A * B < base + mW by {
      Regroup(q1, P, u, m);
      MulStrict(q1 * u, (q3 + 1) * Q, P * m);
      Rearrange(q3 + 1, Q, P, m);
      MulAddConst(q3, 1, m, W);
    }
    var xW, xm, PW, Pm := x * W, x * m, P * W, P * m;
    assert lhs == xW - xm - PW + Pm by {
      Expand(x, P, W, m);
    }
    assert xm < mW by {
      MulStrict(x, W, m);
      assert W * m == mW;
    }
    assert PW <= mW by {
      MulMonotone(P, m, W);
    }
    assert Pm >= 0 by {
      MulMonotone(0, P, m);
    }
    assert xW < base + 3 * mW;
    assert (q3 + 3) * m * W == base + 3 * mW by {
      MulAddConst(q3, 3, m, W);
    }
    if x >= (q3 + 3) * m {
      MulMonotone((q3 + 3) * m, x, W);
    }
  }

  // ---------------------------------------------------------------------
  // The steps of the algorithm

  /**
   * The parameters the algorithm is stated for: m has exactly k bits, x is
   * below 2^(2k) and u is floor(2^(2k) / m).
   */
  predicate ValidParams(x: nat, m: nat, k: nat, u: nat)
  {
    k >= 1 && Pow2(k - 1) <= m < Pow2(k) && x < Pow2(2 * k) && u == Pow2(2 * k) / m
  }

  /** q1 = floor(x / 2^(k-1)). */
  function Q1(x: nat, k: nat): (q1: nat)
    requires k >= 1
    ensures q1 <= x
  {
    DivNonneg(x, Pow2(k - 1));
    DivAtMost(x, Pow2(k - 1));
    x / Pow2(k - 1)
  }

  /** q3 = floor(q1 * u / 2^(k+1)), the estimate of floor(x / m). */
  function Q3(x: nat, k: nat, u: nat): (q3: nat)
    requires k >= 1
    ensures q3 <= Q1(x, k) * u
  {
    MulNonneg(Q1(x, k), u);
    DivNonneg(Q1(x, k) * u, Pow2(k + 1));
    DivAtMost(Q1(x, k) * u, Pow2(k + 1));
    (Q1(x, k) * u) / Pow2(k + 1)
  }

  /** The two shifts are floors: q1 = floor(x / 2^(k-1)) and q3 = floor(q1 * u / 2^(k+1)). */
  lemma FloorSteps(x: nat, k: nat, u: nat)
    requires k >= 1
    ensures Q1(x, k) * Pow2(k - 1) <= x < (Q1(x, k) + 1) * Pow2(k - 1)
    ensures Q3(x, k, u) * Pow2(k + 1) <= Q1(x, k) * u < (Q3(x, k, u) + 1) * Pow2(k + 1)
  {
    DivBounds(x, Pow2(k - 1));
    DivBounds(Q1(x, k) * u, Pow2(k + 1));
  }

  /**
   * r1 - r2 with r1 = x mod 2^w and r2 = q3 * m mod 2^w, replaced by
   * v - (r2 - r1) when r1 < r2, before the final subtractions.
   */
  function Estimate(x: nat, m: nat, k: nat, u: nat, v: nat, w: nat): (est: int)
    requires k >= 1
    ensures v == Pow2(w) ==> 0 <= est < v
    ensures v <= Pow2(w) ==> est < Pow2(w)
  {
    var r1 := x % Pow2(w);
    var r2 := (Q3(x, k, u) * m) % Pow2(w);
    if r1 < r2 then v - (r2 - r1) else r1 - r2
  }

  /**
   * The borrow correction computes x - q3 * m modulo the window without
   * negative intermediates: v - (r2 - r1) == r1 - r2 + 2^w is in [0, 2^w).
   */
  lemma {:induction false} EstimateIsWindowResidue(x: nat, m: nat, k: nat, u: nat, w: nat)
    requires k >= 1
    ensures 0 <= Estimate(x, m, k, u, Pow2(w), w) < Pow2(w)
    ensures Estimate(x, m, k, u, Pow2(w), w) == (x - Q3(x, k, u) * m) % Pow2(w)
  {
    var d := Pow2(w);
    var y := Q3(x, k, u) * m;
    var r1, r2 := x % d, y % d;
    var a, b := x / d, y / d;
    assert x == a * d + r1 && y == b * d + r2;
    if r1 < r2 {
      assert x - y == (a - b - 1) * d + (d + r1 - r2);
      DivModUnique(x - y, d, a - b - 1, d + r1 - r2);
    } else {
      assert x - y == (a - b) * d + (r1 - r2);
      DivModUnique(x - y, d, a - b, r1 - r2);
    }
  }

  /**
   * The quotient estimate is at most two below the true quotient:
   * q3 * m <= x < (q3 + 3) * m (Fact 14.43 of the Handbook of Applied
   * Cryptography).
   */
  lemma QuotientBounds(x: nat, m: nat, k: nat, u: nat)
    requires ValidParams(x, m, k, u)
    ensures Q3(x, k, u) * m <= x < (Q3(x, k, u) + 3) * m
  {
    QuotientUpper(x, m, k, u);
    QuotientLower(x, m, k, u);
  }

  lemma QuotientUpper(x: nat, m: nat, k: nat, u: nat)
    requires ValidParams(x, m, k, u)
    ensures Q3(x, k, u) * m <= x
  {
    var P, Q, W := Pow2(k - 1), Pow2(k + 1), Pow2(2 * k);
    Pow2Add(k - 1, k + 1);
    var q1, q3 := Q1(x, k), Q3(x, k, u);
    DivBounds(x, P);
    DivBounds(W, m);
    DivBounds(q1 * u, Q);
    UpperCore(x, m, P, Q, W, u, q1, q3);
  }

  lemma QuotientLower(x: nat, m: nat, k: nat, u: nat)
    requires ValidParams(x, m, k, u)
    ensures x < (Q3(x, k, u) + 3) * m
  {
    var P, Q, W := Pow2(k - 1), Pow2(k + 1), Pow2(2 * k);
    Pow2Add(k - 1, k + 1);
    Pow2Monotone(k, 2 * k);
    var q1, q3 := Q1(x, k), Q3(x, k, u);
    DivBounds(x, P);
    DivBounds(W, m);
    DivBounds(q1 * u, Q);
    LowerCore(x, m, P, Q, W, u, q1, q3);
  }

  /** With valid parameters q1 and q3 both fit in k + 1 bits. */
  lemma Narrowing(x: nat, m: nat, k: nat, u: nat)
    requires ValidParams(x, m, k, u)
    ensures Q1(x, k) < Pow2(k + 1) && Q3(x, k, u) < Pow2(k + 1)
  {
    var P, Q, W := Pow2(k - 1), Pow2(k + 1), Pow2(2 * k);
    Pow2Add(k - 1, k + 1);
    DivBounds(x, P);
    if Q1(x, k) >= Q {
      MulMonotone(Q, Q1(x, k), P);
    }
    QuotientUpper(x, m, k, u);
    if Q3(x, k, u) >= Q {
      MulMonotone(Q, Q3(x, k, u), m);
      MulMonotone(P, m, Q);
    }
  }

  // ---------------------------------------------------------------------
  // The final loop

  /**
   * `while r >= modulus { r = r - modulus }`: the remainder of r by m,
   * after exactly floor(r / m) subtractions.
   */
  method SubtractUntilBelow(r0: int, m: nat) returns (r: int, ghost subtractions: nat)
    requires m > 0 && r0 >= 0
    ensures 0 <= r < m
    ensures r == r0 % m && subtractions == r0 / m
  {
    r, subtractions := r0, 0;
    while r >= m
      invariant 0 <= r && r0 == subtractions * m + r
      decreases r
    {
      r := r - m;
      subtractions := subtractions + 1;
    }
    DivModUnique(r0, m, subtractions, r);
  }

  // ---------------------------------------------------------------------
  // As written

  /**
   * `barrett_reduction` as written, for a double-width x: window k + 1. The
   * result is always below m and congruent to the window estimate; it is
   * x mod m when the parameters are valid and x - q3 * m stays below the
   * window 2^(k+1), which the parameters alone do not guarantee.
   */
  method BarrettReduction(x: nat, m: nat, k: nat, u: nat, v: nat) returns (r: int, ghost subtractions: nat)
    requires k >= 1 && m > 0 && v == Pow2(k + 1)
    ensures 0 <= r < m
    ensures r == Estimate(x, m, k, u, v, k + 1) % m
    ensures ValidParams(x, m, k, u) ==> subtractions <= 2
    ensures ValidParams(x, m, k, u) && x - Q3(x, k, u) * m < Pow2(k + 1) ==> r == x % m
  {
    var q1 := x / Pow2(k - 1);
    var q2 := q1 * u;
    var q3 := q2 / Pow2(k + 1);
    var r1 := x % Pow2(k + 1);
    var r2 := (q3 * m) % Pow2(k + 1);
    var est := if r1 < r2 then v - (r2 - r1) else r1 - r2;
    EstimateIsWindowResidue(x, m, k, u, k + 1);
    r, subtractions := SubtractUntilBelow(est, m);
    if ValidParams(x, m, k, u) {
      AtMostTwoSubtractions(x, m, k, u);
      if x - Q3(x, k, u) * m < Pow2(k + 1) {
        WindowedCase(x, m, k, u, k + 1);
      }
    }
  }

  /**
   * Even with the narrow window the final loop runs at most twice: when
   * x - q3 * m reaches 2^(k+1) the wrapped estimate x - q3 * m - 2^(k+1)
   * is below 3m - 2m = m. So the defect of the narrow window shows as a
   * wrong result, never as extra iterations.
   */
  lemma AtMostTwoSubtractions(x: nat, m: nat, k: nat, u: nat)
    requires ValidParams(x, m, k, u)
    ensures 0 <= Estimate(x, m, k, u, Pow2(k + 1), k + 1) / m <= 2
  {
    QuotientBounds(x, m, k, u);
    EstimateIsWindowResidue(x, m, k, u, k + 1);
    assert Pow2(k + 1) == 2 * Pow2(k);
    WrappedResidue(x - Q3(x, k, u) * m, m, Pow2(k + 1));
  }

  /** d in [0, 3m) reduced modulo a window of at least 2m leaves at most 2m + (m - 1). */
  lemma WrappedResidue(d: int, m: int, window: int)
    requires 0 < m && 2 * m <= window && 0 <= d < 3 * m
    ensures 0 <= (d % window) / m <= 2
  {
    if d < window {
      DivModUnique(d, window, 0, d);
      DivBounds(d, m);
      DivNonneg(d, m);
      if d / m >= 3 {
        MulMonotone(3, d / m, m);
      }
    } else {
      DivModUnique(d, window, 1, d - window);
      DivModUnique(d - window, m, 0, d - window);
    }
  }

  /**
   * When x - q3 * m is below the window the estimate is exactly x - q3 * m,
   * and its remainder by m is that of x.
   */
  lemma WindowedCase(x: nat, m: nat, k: nat, u: nat, w: nat)
    requires ValidParams(x, m, k, u) && x - Q3(x, k, u) * m < Pow2(w)
    ensures Estimate(x, m, k, u, Pow2(w), w) == x - Q3(x, k, u) * m
    ensures Estimate(x, m, k, u, Pow2(w), w) % m == x % m
    ensures Estimate(x, m, k, u, Pow2(w), w) / m <= 2
  {
    QuotientBounds(x, m, k, u);
    EstimateIsWindowResidue(x, m, k, u, w);
    ResidueCore(x, m, Q3(x, k, u), Pow2(w));
  }

  /** d = x - q3 * m in [0, min(window, 3m)) is its own window residue and x's residue mod m. */
  lemma ResidueCore(x: int, m: int, q3: int, window: int)
    requires 0 < m && 0 < window
    requires 0 <= x - q3 * m < window && x - q3 * m < 3 * m
    ensures (x - q3 * m) % window == x - q3 * m
    ensures (x - q3 * m) % m == x % m && (x - q3 * m) / m <= 2
  {
    var d := x - q3 * m;
    DivModUnique(d, window, 0, d);
    var a, b := d / m, d % m;
    assert d == a * m + b;
    assert x == (q3 + a) * m + b;
    DivModUnique(x, m, q3 + a, b);
    if a >= 3 {
      MulMonotone(3, a, m);
    }
  }

  /**
   * `__barrett_reduction__`, the same steps for a single-width x. For every
   * x below 2^(k+1), in particular for the sum of two residues it reduces,
   * the result is x mod m, as the ordinary reduction `rmod` gives.
   */
  method BarrettReductionSingleWidth(x: nat, m: nat, k: nat, u: nat, v: nat) returns (r: int, ghost subtractions: nat)
    requires k >= 1 && m > 0 && v == Pow2(k + 1)
    ensures 0 <= r < m
    ensures r == Estimate(x, m, k, u, v, k + 1) % m
    ensures ValidParams(x, m, k, u) ==> subtractions <= 2
    ensures ValidParams(x, m, k, u) && x < Pow2(k + 1) ==> r == x % m
  {
    var q1 := x / Pow2(k - 1);
    var q2 := q1 * u;
    var q3 := q2 / Pow2(k + 1);
    var r1 := x % Pow2(k + 1);
    var r2 := (q3 * m) % Pow2(k + 1);
    var est := if r1 < r2 then v - (r2 - r1) else r1 - r2;
    EstimateIsWindowResidue(x, m, k, u, k + 1);
    r, subtractions := SubtractUntilBelow(est, m);
    if ValidParams(x, m, k, u) {
      AtMostTwoSubtractions(x, m, k, u);
      if x < Pow2(k + 1) {
        assert Q3(x, k, u) * m >= 0;
        WindowedCase(x, m, k, u, k + 1);
      }
    }
  }

  /**
   * Valid parameters for which the window k + 1 loses 2^(k+1): m = 57 has
   * k = 6 bits, u = floor(4096 / 57) = 71, and for x = 4061 the difference
   * x - q3 * m is 128 = 2^7. The estimate is 0, so the reduction returns 0,
   * while 4061 mod 57 is 14.
   */
  lemma BarrettReductionWindowTooNarrow()
    ensures ValidParams(4061, 57, 6, 71)
    ensures Q3(4061, 6, 71) == 69 && 4061 - 69 * 57 == Pow2(7)
    ensures Estimate(4061, 57, 6, 71, Pow2(7), 7) % 57 == 0
    ensures 4061 % 57 == 14
  {
    assert Pow2(5) == 32 && Pow2(6) == 64 && Pow2(7) == 128 && Pow2(12) == 4096;
  }

  // ---------------------------------------------------------------------
  // Corrected

  /**
   * The reduction with window 2^(k+2) and v = 2^(k+2). Because
   * x - q3 * m < 3m < 2^(k+2) whenever the parameters are valid, the
   * estimate is exact and the result is x mod m after at most two
   * subtractions.
   */
  method BarrettReductionCorrected(x: nat, m: nat, k: nat, u: nat, v: nat)
    returns (r: int, ghost subtractions: nat)
    requires k >= 1 && m > 0 && v == Pow2(k + 2)
    ensures 0 <= r < m
    ensures ValidParams(x, m, k, u) ==> r == x % m && subtractions <= 2
  {
    var q1 := x / Pow2(k - 1);
    var q2 := q1 * u;
    var q3 := q2 / Pow2(k + 1);
    var r1 := x % Pow2(k + 2);
    var r2 := (q3 * m) % Pow2(k + 2);
    var est := if r1 < r2 then v - (r2 - r1) else r1 - r2;
    EstimateIsWindowResidue(x, m, k, u, k + 2);
    r, subtractions := SubtractUntilBelow(est, m);
    if ValidParams(x, m, k, u) {
      WiderWindowSuffices(x, m, k, u);
      WindowedCase(x, m, k, u, k + 2);
    }
  }

  /** With valid parameters x - q3 * m < 3m < 2^(k+2). */
  lemma WiderWindowSuffices(x: nat, m: nat, k: nat, u: nat)
    requires ValidParams(x, m, k, u)
    ensures x - Q3(x, k, u) * m < Pow2(k + 2)
  {
    QuotientBounds(x, m, k, u);
    assert Pow2(k + 2) == 4 * Pow2(k);
    assert (Q3(x, k, u) + 3) * m == Q3(x, k, u) * m + 3 * m;
  }

  // ---------------------------------------------------------------------
  // Parameters

  /**
   * `barrett_reduction_params` as written: k is the bit length of the
   * modulus, v = 2^(k+1), but u divides 2^(2k) by the curve order constant
   * rather than by the modulus. The triple is valid for m only when the
   * quotients agree, which holds for m equal to the curve order.
   */
  method BarrettReductionParams(m: nat, curveOrder: nat) returns (k: nat, u: nat, v: nat)
    requires curveOrder > 0
    ensures k == BitLength(m) && v == Pow2(k + 1)
    ensures u == Pow2(2 * k) / curveOrder
    ensures m == curveOrder ==> forall x: nat :: x < Pow2(2 * k) ==> ValidParams(x, m, k, u)
    ensures m != curveOrder ==> forall x: nat :: !ValidParams(x, m, k, u)
  {
    k := BitLength(m);
    var w := 1;
    w := w * Pow2(k);
    w := w * Pow2(k);
    Pow2Add(k, k);
    DivNonneg(w, curveOrder);
    u := w / curveOrder;
    v := 1;
    v := v * Pow2(k + 1);
    if m > 0 && m != curveOrder {
      ParamsValidOnlyForCurveOrder(m, curveOrder);
    }
  }

  /**
   * For every modulus m other than the curve order c, the u the parameters
   * compute is wrong: with k the bit length of m, floor(2^(2k) / c) differs
   * from floor(2^(2k) / m), so no input makes the triple valid for m.
   */
  lemma ParamsValidOnlyForCurveOrder(m: nat, curveOrder: nat)
    requires m > 0 && curveOrder > 0 && m != curveOrder
    ensures forall x: nat :: !ValidParams(x, m, BitLength(m), Pow2(2 * BitLength(m)) / curveOrder)
  {
    var k := BitLength(m);
    var w := Pow2(2 * k);
    Pow2Add(k, k);
    MulStrict(m, Pow2(k), m);
    MulMonotone(m, Pow2(k), Pow2(k));
    if curveOrder < m {
      MulMonotone(curveOrder, m, curveOrder);
      MulMonotone(curveOrder, m, m);
      QuotientsDiffer(w, curveOrder, m);
    } else {
      QuotientsDiffer(w, m, curveOrder);
    }
  }

  /** For 0 < a < b with a * a <= w the floors of w / b and w / a differ. */
  lemma QuotientsDiffer(w: int, a: int, b: int)
    requires 0 < a < b && a * a <= w
    ensures w / b < w / a
  {
    var q := w / b;
    DivBounds(w, b);
    DivNonneg(w, b);
    if q >= a {
      MulMonotone(a + 1, b, q);
      assert (q + 1) * a <= q * (a + 1);
    } else {
      MulMonotone(q + 1, a, a);
    }
    DivLowerBound(w, a, q + 1);
  }

  /**
   * For a modulus other than the curve order the triple is not valid:
   * with m = 57 and a curve order of 59, u = floor(4096 / 59) = 69, while
   * the algorithm needs floor(4096 / 57) = 71.
   */
  lemma ParamsUseCurveOrder()
    ensures BitLength(57) == 6 && Pow2(12) / 59 == 69
    ensures !ValidParams(0, 57, 6, 69)
    ensures ValidParams(0, 57, 6, 71)
  {
    assert Pow2(5) == 32 && Pow2(6) == 64 && Pow2(12) == 4096;
    assert BitLength(57) == 1 + BitLength(28);
    assert BitLength(28) == 1 + BitLength(14);
    assert BitLength(14) == 1 + BitLength(7);
    assert BitLength(7) == 1 + BitLength(3);
    assert BitLength(3) == 1 + BitLength(1);
    assert BitLength(1) == 1 + BitLength(0);
  }

  /**
   * Parameters for the corrected reduction: k the bit length of m,
   * u = floor(2^(2k) / m) and v = 2^(k+2). They are valid for every x below
   * 2^(2k).
   */
  function BarrettParams(m: nat): (p: (nat, nat, nat))
    requires m > 0
    ensures p.0 == BitLength(m) && p.2 == Pow2(p.0 + 2)
    ensures forall x: nat :: x < Pow2(2 * p.0) ==> ValidParams(x, m, p.0, p.1)
  {
    var k := BitLength(m);
    DivNonneg(Pow2(2 * k), m);
    (k, Pow2(2 * k) / m, Pow2(k + 2))
  }

  /**
   * Reduction of any x below 2^(2k) for a k-bit modulus m: computes the
   * parameters from m itself and runs the corrected reduction, which gives
   * x mod m.
   */
  method Reduce(x: nat, m: nat) returns (r: int)
    requires m > 0 && x < Pow2(2 * BitLength(m))
    ensures r == x % m
  {
    var (k, u, v) := BarrettParams(m);
    ghost var subtractions;
    r, subtractions := BarrettReductionCorrected(x, m, k, u, v);
  }
}
