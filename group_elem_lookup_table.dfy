/**
 * The wNAF lookup table of a group element A: the eight odd multiples
 * A, 3A, 5A, ..., 15A, used by variable-time scalar multiplication with a
 * window of width 5.
 */
module LookupTables {
  import opened Group

  datatype Table = Table(entries: seq<Point>)

  /**
   * A table as the library hands it out. Its array is private and only
   * `From` fills it, so every table has eight entries, the i-th being
   * (2i + 1) times the first.
   */
  type LookupTable = t: Table | IsOddMultiples(t.entries)
    witness Table([0, 0, 0, 0, 0, 0, 0, 0])

  predicate IsOddMultiples(e: seq<Point>)
  {
    |e| == 8 && forall i :: 0 <= i < 8 ==> e[i] == ScalarMul(e[0], 2 * i + 1)
  }

  /** The element the table was built from. */
  function Base(t: LookupTable): Point { t.entries[0] }

  /** A digit a wNAF of width 5 may hold: 0 or an odd value in [-15, 15]. */
  predicate IsWnafDigit(d: int)
  {
    d == 0 || (-16 < d < 16 && d % 2 != 0)
  }

  /**
   * The table entry for an odd x below 16 (the two debug assertions of the
   * source), which is x times the base.
   */
  function Select(t: LookupTable, x: int): (p: Point)
    requires 0 <= x < 16 && x % 2 == 1
    ensures p == ScalarMul(Base(t), x)
  {
    t.entries[x / 2]
  }

  /**
   * Builds the table of `a` with one doubling and seven successive additions
   * of 2a, filling an eight-element array that starts as identities.
   */
  method From(a: Point) returns (t: LookupTable)
    ensures Base(t) == a
    ensures forall i :: 0 <= i < 8 ==> t.entries[i] == ScalarMul(a, 2 * i + 1)
  {
    var ai := new Point[8](_ => Identity());
    var a2 := Double(a);
    ai[0] := a;
    for i := 0 to 7
      invariant forall j :: 0 <= j <= i ==> ai[j] == ScalarMul(a, 2 * j + 1)
    {
      ai[i + 1] := Add(ai[i], a2);
    }
    t := Table(ai[..]);
  }
}
