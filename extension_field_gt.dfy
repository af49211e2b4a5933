/**
 * The pairing target group GT: the reduced ate pairing and its two- and
 * multi-pairing forms, multiplication and inversion, and construction from
 * bytes and from hex.
 *
 * The arithmetic of the curve library (the Miller loop pieces `ate`,
 * `ate2`, `initmp`, `another`, `miller`, the final exponentiation `fexp`,
 * FP12 multiplication, inversion and construction, and the FP2 hex parser)
 * is not part of this model: an `Amcl` record carries those operations as
 * functions, and every member takes it as a parameter. The algebraic laws
 * they satisfy are the hypothesis `PairingLaws` of the lemmas that need
 * them. G1 and G2 points are group elements by discrete logarithm, as in
 * module Group.
 */
module ExtensionFieldGT {
  import opened Group
  import opened Wrappers

  datatype Fp2 = Fp2(a: int, b: int)
  datatype Fp4 = Fp4(a: Fp2, b: Fp2)

  /** The sparsity tag an FP12 value carries. */
  datatype Sparsity = Zero | One | Sparser | Sparse | Dense

  datatype Fp12 = Fp12(a: Fp4, b: Fp4, c: Fp4, stype: Sparsity)

  /** An element of the target group, wrapping its FP12 value. */
  datatype GT = GT(value: Fp12)

  /** The operations of the curve library this module calls. */
  datatype Amcl<!Acc> = Amcl(
    /** Miller loop of one pair, G2 point first. */
    ate: (Point, Point) -> Fp12,
    /** Miller loop of two pairs, G2 point first in each. */
    ate2: (Point, Point, Point, Point) -> Fp12,
    /** Final exponentiation. */
    fexp: Fp12 -> Fp12,
    /** Fresh multi-pairing accumulator. */
    initmp: Acc,
    /** Adds one pair (G2 point first) to the accumulator. */
    another: (Acc, Point, Point) -> Acc,
    /** Finishes the Miller loop of an accumulator. */
    miller: Acc -> Fp12,
    mul: (Fp12, Fp12) -> Fp12,
    inverse: Fp12 -> Fp12,
    newFp4s: (Fp4, Fp4, Fp4) -> Fp12,
    fromBytes: seq<bv8> -> Fp12,
    /** Parses one FP2 from the front of the tokens, returning the rest. */
    parseFp2: seq<string> -> Result<(Fp2, seq<string>), SerzDeserzError>,
    /** Serialized size of a GT element in bytes. */
    gtSize: nat
  )

  // ---------------------------------------------------------------------
  // Elements and arithmetic

  function Fp4Int(n: int): Fp4
  {
    Fp4(Fp2(n, 0), Fp2(0, 0))
  }

  /** The FP12 value 1: the FP4s 1, 0 and 0 in the library's constructor. */
  function UnityValue<Acc>(e: Amcl<Acc>): Fp12
  {
    e.newFp4s(Fp4Int(1), Fp4Int(0), Fp4Int(0))
  }

  /**
   * `one`: the FP12 built from the FP4s 1, 0 and 0; under the pairing laws
   * it is the neutral element of multiplication on both sides.
   */
  function One<Acc(!new)>(e: Amcl<Acc>): (o: GT)
    ensures PairingLaws(e) ==> forall x :: e.mul(o.value, x) == x && e.mul(x, o.value) == x
  {
    GT(UnityValue(e))
  }

  /**
   * `mul`: product of two elements, leaving both unchanged; multiplying by
   * `one` on either side gives the other factor back.
   */
  function Mul<Acc(!new)>(e: Amcl<Acc>, a: GT, b: GT): (p: GT)
    ensures PairingLaws(e) && a == One(e) ==> p == b
    ensures PairingLaws(e) && b == One(e) ==> p == a
  {
    GT(e.mul(a.value, b.value))
  }

  /**
   * `inverse`: the inverse of an element, leaving it unchanged; for the
   * pairing of two non-identity points the product of the element and its
   * inverse is `one`.
   */
  function Inverse<Acc(!new)>(e: Amcl<Acc>, a: GT): (r: GT)
    ensures PairingLaws(e) ==> forall g1, g2 ::
      !IsIdentity(g1) && !IsIdentity(g2) && a == AtePairing(e, g1, g2) ==> Mul(e, a, r) == One(e)
  {
    GT(e.inverse(a.value))
  }

  /** A GT element whose value `inverse_mut` replaces in place. */
  class MutableGT {
    var elem: GT

    constructor(elem: GT)
      ensures this.elem == elem
    {
      this.elem := elem;
    }

    /** `inverse_mut`: the element becomes what `inverse` returns for it. */
    method InverseMut<Acc(!new)>(e: Amcl<Acc>)
      modifies this
      ensures elem == Inverse(e, old(elem))
    {
      elem := GT(e.inverse(elem.value));
    }
  }

  /**
   * The laws of a bilinear pairing the library's pieces are trusted to
   * satisfy: the value of `one` is neutral for multiplication, the reduced
   * pairing of two non-identity points times its inverse is one, an empty
   * Miller accumulator exponentiates to one, adding a pair of non-identity
   * points multiplies the reduced result by that pair's reduced pairing,
   * and a double Miller loop of non-identity points reduces to the product
   * of the two reduced pairings.
   */
  ghost predicate PairingLaws<Acc(!new)>(e: Amcl<Acc>)
  {
    var one := UnityValue(e);
    (forall x :: e.mul(one, x) == x) &&
    (forall x :: e.mul(x, one) == x) &&
    (forall q, p :: !IsIdentity(q) && !IsIdentity(p) ==>
      e.mul(e.fexp(e.ate(q, p)), e.inverse(e.fexp(e.ate(q, p)))) == one) &&
    e.fexp(e.miller(e.initmp)) == one &&
    (forall acc, q, p :: !IsIdentity(q) && !IsIdentity(p) ==>
      e.fexp(e.miller(e.another(acc, q, p))) == e.mul(e.fexp(e.miller(acc)), e.fexp(e.ate(q, p)))) &&
    (forall q1, p1, q2, p2 :: !IsIdentity(q1) && !IsIdentity(p1) && !IsIdentity(q2) && !IsIdentity(p2) ==>
      e.fexp(e.ate2(q1, p1, q2, p2)) == e.mul(e.fexp(e.ate(q1, p1)), e.fexp(e.ate(q2, p2))))
  }

  // ---------------------------------------------------------------------
  // Pairings

  /**
   * `ate_pairing(g1, g2)`: one, without a Miller loop, when either point is
   * the identity; otherwise the final exponentiation of the Miller loop
   * with the G2 point passed first.
   */
  function AtePairing<Acc(!new)>(e: Amcl<Acc>, g1: Point, g2: Point): (r: GT)
    ensures IsIdentity(g1) || IsIdentity(g2) ==> r == One(e)
    ensures !IsIdentity(g1) && !IsIdentity(g2) ==> r == GT(e.fexp(e.ate(g2, g1)))
  {
    if IsIdentity(g1) || IsIdentity(g2) then One(e)
    else GT(e.fexp(e.ate(g2, g1)))
  }

  /**
   * `ate_2_pairing(g1, g2, h1, h2)`: the single pairing of the other pair
   * when one pair has an identity (the first pair checked first), otherwise
   * one double Miller loop and one final exponentiation.
   */
  function Ate2Pairing<Acc(!new)>(e: Amcl<Acc>, g1: Point, g2: Point, h1: Point, h2: Point): (r: GT)
    ensures IsIdentity(g1) || IsIdentity(g2) ==> r == AtePairing(e, h1, h2)
    ensures !IsIdentity(g1) && !IsIdentity(g2) && (IsIdentity(h1) || IsIdentity(h2)) ==>
      r == AtePairing(e, g1, g2)
    ensures IsIdentity(g1) && IsIdentity(g2) && IsIdentity(h1) && IsIdentity(h2) ==> r == One(e)
  {
    if IsIdentity(g1) || IsIdentity(g2) then AtePairing(e, h1, h2)
    else if IsIdentity(h1) || IsIdentity(h2) then AtePairing(e, g1, g2)
    else GT(e.fexp(e.ate2(g2, g1, h2, h1)))
  }

  /** Under the pairing laws the double pairing is the product of the two pairings, for all inputs. */
  lemma Ate2IsProduct<Acc(!new)>(e: Amcl<Acc>, g1: Point, g2: Point, h1: Point, h2: Point)
    requires PairingLaws(e)
    ensures Ate2Pairing(e, g1, g2, h1, h2) == Mul(e, AtePairing(e, g1, g2), AtePairing(e, h1, h2))
  {
    var one := One(e).value;
    if IsIdentity(g1) || IsIdentity(g2) {
      assert e.mul(one, AtePairing(e, h1, h2).value) == AtePairing(e, h1, h2).value;
    } else if IsIdentity(h1) || IsIdentity(h2) {
      assert e.mul(AtePairing(e, g1, g2).value, one) == AtePairing(e, g1, g2).value;
    } else {
      assert e.fexp(e.ate2(g2, g1, h2, h1)) == e.mul(e.fexp(e.ate(g2, g1)), e.fexp(e.ate(h2, h1)));
    }
  }

  /**
   * Pairing with an identity on either side contributes nothing to a
   * product: e(g1, g2) * e(identity, h2) == e(g1, g2) and
   * e(identity, g2) * e(h1, h2) == e(h1, h2).
   */
  lemma IdentityPairingIsNeutral<Acc(!new)>(e: Amcl<Acc>, g1: Point, g2: Point, h2: Point)
    requires PairingLaws(e)
    ensures Mul(e, AtePairing(e, g1, g2), AtePairing(e, Identity(), h2)) == AtePairing(e, g1, g2)
    ensures Mul(e, AtePairing(e, Identity(), h2), AtePairing(e, g1, g2)) == AtePairing(e, g1, g2)
  {
    var one := One(e).value;
    assert e.mul(AtePairing(e, g1, g2).value, one) == AtePairing(e, g1, g2).value;
    assert e.mul(one, AtePairing(e, g1, g2).value) == AtePairing(e, g1, g2).value;
  }

  // ---------------------------------------------------------------------
  // Multi-pairing

  predicate HasIdentity(pair: (Point, Point))
  {
    IsIdentity(pair.0) || IsIdentity(pair.1)
  }

  /** The accumulator after adding every pair without an identity, in order. */
  function Accumulate<Acc>(e: Amcl<Acc>, pairs: seq<(Point, Point)>): (acc: Acc)
    ensures (forall i :: 0 <= i < |pairs| ==> HasIdentity(pairs[i])) ==> acc == e.initmp
  {
    if |pairs| == 0 then e.initmp
    else
      var acc := Accumulate(e, pairs[..|pairs| - 1]);
      var last := pairs[|pairs| - 1];
      if HasIdentity(last) then acc else e.another(acc, last.1, last.0)
  }

  /** The pairs without an identity point, in their order. */
  function WithoutIdentities(pairs: seq<(Point, Point)>): (kept: seq<(Point, Point)>)
    ensures |kept| <= |pairs|
    ensures forall i :: 0 <= i < |kept| ==> !HasIdentity(kept[i]) && kept[i] in pairs
  {
    if |pairs| == 0 then []
    else
      var rest := WithoutIdentities(pairs[..|pairs| - 1]);
      var last := pairs[|pairs| - 1];
      if HasIdentity(last) then rest else rest + [last]
  }

  /** The reduced value `ate_multi_pairing` returns: one Miller finish, one final exponentiation. */
  function MultiPairingValue<Acc>(e: Amcl<Acc>, pairs: seq<(Point, Point)>): (r: GT)
    ensures (forall i :: 0 <= i < |pairs| ==> HasIdentity(pairs[i])) ==> r == GT(e.fexp(e.miller(e.initmp)))
  {
    GT(e.fexp(e.miller(Accumulate(e, pairs))))
  }

  /**
   * `ate_multi_pairing`: starts a Miller accumulator, adds every pair in
   * order unless one of its points is the identity, then finishes the Miller
   * loop and applies the final exponentiation once.
   */
  method AteMultiPairing<Acc>(e: Amcl<Acc>, elems: seq<(Point, Point)>) returns (r: GT)
    ensures r == MultiPairingValue(e, elems)
  {
    var accum := e.initmp;
    for i := 0 to |elems|
      invariant accum == Accumulate(e, elems[..i])
    {
      assert elems[..i + 1][..i] == elems[..i];
      var (g1, g2) := elems[i];
      if IsIdentity(g1) || IsIdentity(g2) {
        continue;
      }
      accum := e.another(accum, g2, g1);
    }
    assert elems[..|elems|] == elems;
    var m := e.miller(accum);
    r := GT(e.fexp(m));
  }

  /** Skipping pairs with an identity is the same as removing them beforehand. */
  lemma {:induction false} AccumulateSkipsIdentities<Acc>(e: Amcl<Acc>, pairs: seq<(Point, Point)>)
    ensures Accumulate(e, pairs) == Accumulate(e, WithoutIdentities(pairs))
    ensures MultiPairingValue(e, pairs) == MultiPairingValue(e, WithoutIdentities(pairs))
  {
    if |pairs| > 0 {
      var k := |pairs| - 1;
      AccumulateSkipsIdentities(e, pairs[..k]);
      var kept := WithoutIdentities(pairs[..k]);
      if !HasIdentity(pairs[k]) {
        assert (kept + [pairs[k]])[..|kept|] == kept;
      }
    }
  }

  /** Multi-pairing of pairs that all contain an identity is one under the pairing laws. */
  lemma AllIdentityPairsGiveOne<Acc(!new)>(e: Amcl<Acc>, pairs: seq<(Point, Point)>)
    requires PairingLaws(e)
    requires forall i :: 0 <= i < |pairs| ==> HasIdentity(pairs[i])
    ensures MultiPairingValue(e, pairs) == One(e)
  {
    AccumulateSkipsIdentities(e, pairs);
    var kept := WithoutIdentities(pairs);
    assert kept == [];
  }

  /** Product of the single pairings of the pairs, in order, starting from one. */
  function PairingProduct<Acc(!new)>(e: Amcl<Acc>, pairs: seq<(Point, Point)>): GT
  {
    if |pairs| == 0 then One(e)
    else
      var last := pairs[|pairs| - 1];
      Mul(e, PairingProduct(e, pairs[..|pairs| - 1]), AtePairing(e, last.0, last.1))
  }

  /**
   * Under the pairing laws the multi-pairing is the product of the single
   * pairings, identities included: e(g1, g2) * e(h1, h2) * ...
   */
  lemma {:induction false} MultiPairingIsProduct<Acc(!new)>(e: Amcl<Acc>, pairs: seq<(Point, Point)>)
    requires PairingLaws(e)
    ensures MultiPairingValue(e, pairs) == PairingProduct(e, pairs)
  {
    if |pairs| > 0 {
      var k := |pairs| - 1;
      MultiPairingIsProduct(e, pairs[..k]);
      var prev := PairingProduct(e, pairs[..k]).value;
      var (g1, g2) := pairs[k];
      if HasIdentity(pairs[k]) {
        assert e.mul(prev, One(e).value) == prev;
      } else {
        var acc := Accumulate(e, pairs[..k]);
        assert e.fexp(e.miller(e.another(acc, g2, g1))) == e.mul(e.fexp(e.miller(acc)), e.fexp(e.ate(g2, g1)));
      }
    }
  }

  // ---------------------------------------------------------------------
  // Construction from bytes and hex

  /**
   * `from_bytes`: fails with the length found and the length expected
   * exactly when the byte string is not `GroupGT_SIZE` long; otherwise
   * the element the library decodes from it.
   */
  function FromBytes<Acc>(e: Amcl<Acc>, bytes: seq<bv8>): (r: Result<GT, SerzDeserzError>)
    ensures r.Failure? <==> |bytes| != e.gtSize
    ensures r.Failure? ==> r.error == GTBytesIncorrectSize(|bytes|, e.gtSize)
    ensures r.Success? ==> r.value == GT(e.fromBytes(bytes))
  {
    if |bytes| != e.gtSize then Failure(GTBytesIncorrectSize(|bytes|, e.gtSize))
    else Success(GT(e.fromBytes(bytes)))
  }

  /** `parse_hex_as_FP4`: two FP2s, a then b, each error returned as it arises. */
  function ParseFp4<Acc>(e: Amcl<Acc>, tokens: seq<string>): (r: Result<(Fp4, seq<string>), SerzDeserzError>)
    ensures r.Success? <==> ParseFp2s(e, tokens, 2).Success?
    ensures r.Success? ==> [r.value.0.a, r.value.0.b] == ParseFp2s(e, tokens, 2).value
    ensures r.Failure? ==> r.error == ParseFp2s(e, tokens, 2).error
  {
    match e.parseFp2(tokens)
    case Failure(err) => Failure(err)
    case Success((a, rest)) =>
      match e.parseFp2(rest)
      case Failure(err) => Failure(err)
      case Success((b, rest2)) => Success((Fp4(a, b), rest2))
  }

  /**
   * `from_hex` over the whitespace-separated tokens of the string: three
   * FP4s a, b and c in order, the first error returned, and on success a
   * dense FP12.
   */
  function FromHex<Acc>(e: Amcl<Acc>, tokens: seq<string>): (r: Result<GT, SerzDeserzError>)
    ensures ParseFp4(e, tokens).Failure? ==> r == Failure(ParseFp4(e, tokens).error)
    ensures r.Success? ==> ParseFp4(e, tokens).Success? && r.value.value.a == ParseFp4(e, tokens).value.0
    ensures r.Success? ==> r.value.value.stype == Dense
  {
    match ParseFp4(e, tokens)
    case Failure(err) => Failure(err)
    case Success((a, rest)) =>
      match ParseFp4(e, rest)
      case Failure(err) => Failure(err)
      case Success((b, rest2)) =>
        match ParseFp4(e, rest2)
        case Failure(err) => Failure(err)
        case Success((c, _)) => Success(GT(Fp12(a, b, c, Dense)))
  }

  /**
   * Reference reading of a hex string: n FP2s parsed one after another,
   * stopping at the first error.
   */
  function ParseFp2s<Acc>(e: Amcl<Acc>, tokens: seq<string>, n: nat): (r: Result<seq<Fp2>, SerzDeserzError>)
    ensures r.Success? ==> |r.value| == n
    decreases n
  {
    if n == 0 then Success([])
    else
      match e.parseFp2(tokens)
      case Failure(err) => Failure(err)
      case Success((x, rest)) =>
        match ParseFp2s(e, rest, n - 1)
        case Failure(err) => Failure(err)
        case Success(xs) => Success([x] + xs)
  }

  /**
   * `from_hex` reads exactly six FP2s in sequence: it succeeds exactly when
   * they all parse, with a = (x0, x1), b = (x2, x3), c = (x4, x5) and the
   * dense tag, and otherwise returns the error of the first that fails.
   */
  lemma FromHexReadsSixFp2s<Acc>(e: Amcl<Acc>, tokens: seq<string>)
    ensures FromHex(e, tokens).Success? <==> ParseFp2s(e, tokens, 6).Success?
    ensures ParseFp2s(e, tokens, 6).Failure? ==>
      FromHex(e, tokens) == Failure(ParseFp2s(e, tokens, 6).error)
    ensures ParseFp2s(e, tokens, 6).Success? ==>
      var x := ParseFp2s(e, tokens, 6).value;
      FromHex(e, tokens) == Success(GT(Fp12(Fp4(x[0], x[1]), Fp4(x[2], x[3]), Fp4(x[4], x[5]), Dense)))
  {
    ParseFp4ReadsTwo(e, tokens, 4);
    match ParseFp4(e, tokens)
    case Failure(_) =>
    case Success((_, rest)) =>
      ParseFp4ReadsTwo(e, rest, 2);
      match ParseFp4(e, rest)
      case Failure(_) =>
      case Success((_, rest2)) =>
        ParseFp4ReadsTwo(e, rest2, 0);
  }

  /**
   * Reading an FP4 and then n further FP2s is reading n + 2 FP2s; the
   * error, if any, is the first one.
   */
  lemma ParseFp4ReadsTwo<Acc>(e: Amcl<Acc>, tokens: seq<string>, n: nat)
    ensures ParseFp4(e, tokens).Failure? ==>
      ParseFp2s(e, tokens, n + 2) == Failure(ParseFp4(e, tokens).error)
    ensures ParseFp4(e, tokens).Success? ==>
      var (f, rest) := ParseFp4(e, tokens).value;
      ParseFp2s(e, tokens, n + 2) ==
        match ParseFp2s(e, rest, n)
        case Failure(err) => Failure(err)
        case Success(xs) => Success([f.a, f.b] + xs)
  {
    match e.parseFp2(tokens)
    case Failure(_) =>
    case Success((a, rest)) =>
      match e.parseFp2(rest)
      case Failure(_) =>
      case Success((b, rest2)) =>
        match ParseFp2s(e, rest2, n)
        case Failure(_) =>
        case Success(xs) =>
          assert [a] + ([b] + xs) == [a, b] + xs;
  }
}
