/** The concrete cases of the repository's unit tests (test.py) for
    `Element`, `Polynomial` and `decimal_to_base_n`, under the modulus they
    use, p = 3.
    Polynomials are compared through their coefficients (`CanonicalByCoef`),
    which the specification functions describe, rather than by unfolding
    every recursive helper. */
module Examples {
  import opened Wrappers
  import ModArith
  import opened Field
  import opened Polynomials
  import opened PolynomialDivision
  import opened BaseN

  function E(x: int): Element { Element(x) }

  /** Two lists of at most n entries that agree on degrees below n agree everywhere. */
  lemma AgreeBelow(x: seq<Element>, y: seq<Element>, n: int)
    requires |x| <= n && |y| <= n
    requires forall k :: 0 <= k < n ==> Coef(x, k) == Coef(y, k)
    ensures forall k :: Coef(x, k) == Coef(y, k)
  {
  }

  /** Residues mod 3 of the small sums and differences the examples meet. */
  lemma ModThree()
    ensures ModArith.Mod(-4, 3) == 2 && ModArith.Mod(-3, 3) == 0 && ModArith.Mod(-2, 3) == 1
    ensures ModArith.Mod(-1, 3) == 2 && ModArith.Mod(0, 3) == 0 && ModArith.Mod(1, 3) == 1
    ensures ModArith.Mod(2, 3) == 2 && ModArith.Mod(3, 3) == 0 && ModArith.Mod(4, 3) == 1
    ensures ModArith.Mod(5, 3) == 2 && ModArith.Mod(6, 3) == 0
  {
  }

  // GF(3).

  lemma ElementInit()
    ensures FromInt(3, -1) == E(2) && FromInt(3, 4) == E(1)
  {
  }

  lemma ElementComplement()
    ensures Field.Complement(3, E(1)) == E(2)
  {
  }

  lemma ElementAdd()
    ensures Field.Add(3, E(1), E(1)) == E(2) && Field.Add(3, E(2), E(2)) == E(1)
  {
  }

  lemma ElementMul()
    ensures Mul(3, E(1), E(2)) == E(2) && Mul(3, FromInt(3, 3), E(2)) == E(0)
  {
  }

  lemma ElementSub()
    ensures Field.Sub(3, E(1), E(2)) == E(2) && Field.Sub(3, E(0), E(1)) == E(2)
  {
    assert ModArith.Mod(-1, 3) == 2;
  }

  lemma ElementDiv()
    ensures Quotient(3, E(1), E(2)) == Some(E(2)) && Quotient(3, E(0), E(2)) == Some(E(0))
    ensures Quotient(3, E(0), E(0)) == Some(E(0)) && Quotient(3, E(1), E(0)) == None
    ensures Quotient(4, E(1), E(2)) == None
  {
  }

  // Polynomials over GF(3).

  /** `Polynomial([1, 1, 2, 0, 1]).tolist()` is the list itself. */
  lemma PolynomialInit()
    ensures ToList(FromInts(3, [1, 1, 2, 0, 1])) == [1, 1, 2, 0, 1]
  {
    FromReducedInts(3, [1, 1, 2, 0, 1]);
  }

  /** Leading zeros are stripped: `[0, 0, 2, 1]` becomes `[2, 1]`. */
  lemma PolynomialStrip()
    ensures ToList(FromInts(3, [0, 0, 2, 1])) == [2, 1]
  {
  }

  /** An all-zero list becomes `[0]`. */
  lemma PolynomialAllZero()
    ensures ToList(FromInts(3, [0, 0, 0, 0])) == [0]
  {
  }

  /** `_add_elementwise([0, 2, 1], [1, 2, 2])` is `[1, 1, 0]`. */
  lemma ElementwiseAddCase()
    ensures AddElementwise(3, [E(0), E(2), E(1)], [E(1), E(2), E(2)]) == [E(1), E(1), E(0)]
  {
    var r, x := AddElementwise(3, [E(0), E(2), E(1)], [E(1), E(2), E(2)]), [E(1), E(1), E(0)];
    ModThree();
    forall k | 0 <= k < 3 ensures Coef(r, k) == Coef(x, k) {
      assert k == 0 || k == 1 || k == 2;
    }
    AgreeBelow(r, x, 3);
    EqualByCoef(r, x);
  }

  /** `[1, 1, 2, 0, 1] + [1, 2]` is `[1, 1, 2, 1, 0]`, in either order. */
  lemma PolynomialAdd(P: Polynomial, Q: Polynomial)
    requires Valid(3, P) && ToList(P) == [1, 1, 2, 0, 1]
    requires Valid(3, Q) && ToList(Q) == [1, 2]
    ensures ToList(Polynomials.Add(3, P, Q)) == [1, 1, 2, 1, 0]
    ensures ToList(Polynomials.Add(3, Q, P)) == [1, 1, 2, 1, 0]
  {
    assert P.coeffs == [E(1), E(1), E(2), E(0), E(1)] && Q.coeffs == [E(1), E(2)];
    LongSumIs(Polynomials.Add(3, P, Q).coeffs);
    Polynomials.AddCommutes(3, P, Q);
  }

  lemma LongSumIs(r: seq<Element>)
    requires |r| <= 5 && IsNormal(r) && IsSum(3, [E(1), E(1), E(2), E(0), E(1)], [E(1), E(2)], r)
    ensures r == [E(1), E(1), E(2), E(1), E(0)]
  {
    var x := [E(1), E(1), E(2), E(1), E(0)];
    forall k | 0 <= k < 5 ensures Coef(r, k) == Coef(x, k) {
      assert k == 0 || k == 1 || k == 2 || k == 3 || k == 4;
    }
    AgreeBelow(r, x, 5);
    CanonicalByCoef(r, x);
  }

  lemma PolynomialAddToZero()
    ensures Polynomials.Add(3, FromInts(3, [2, 0, 1]), FromInts(3, [1, 0, 2])) == ZeroPoly
  {
    FromReducedInts(3, [2, 0, 1]);
    FromReducedInts(3, [1, 0, 2]);
    assert FromInts(3, [2, 0, 1]).coeffs == [E(2), E(0), E(1)];
    assert FromInts(3, [1, 0, 2]).coeffs == [E(1), E(0), E(2)];
    var P, Q := Polynomial([E(2), E(0), E(1)]), Polynomial([E(1), E(0), E(2)]);
    var r := Polynomials.Add(3, P, Q).coeffs;
    forall k | 0 <= k < 3 ensures Coef(r, k) == Coef(ZeroPoly.coeffs, k) {
      assert k == 0 || k == 1 || k == 2;
    }
    AgreeBelow(r, ZeroPoly.coeffs, 3);
    CanonicalByCoef(r, ZeroPoly.coeffs);
  }

  lemma PolynomialComplement()
    ensures ToList(Polynomials.Complement(3, FromInts(3, [1, 2, 0]))) == [2, 1, 0]
  {
    FromReducedInts(3, [1, 2, 0]);
    assert FromInts(3, [1, 2, 0]).coeffs == [E(1), E(2), E(0)];
    var r, x := Polynomials.Complement(3, Polynomial([E(1), E(2), E(0)])).coeffs, [E(2), E(1), E(0)];
    forall k | 0 <= k < 3 ensures Coef(r, k) == Coef(x, k) {
      assert k == 0 || k == 1 || k == 2;
    }
    AgreeBelow(r, x, 3);
    CanonicalByCoef(r, x);
  }

  lemma PolynomialSub(P: Polynomial, Q: Polynomial)
    requires Valid(3, P) && ToList(P) == [2, 0, 1, 0, 1]
    requires Valid(3, Q) && ToList(Q) == [1, 0, 2, 2, 0]
    ensures ToList(Polynomials.Sub(3, P, Q)) == [1, 0, 2, 1, 1]
  {
    assert P.coeffs == [E(2), E(0), E(1), E(0), E(1)] && Q.coeffs == [E(1), E(0), E(2), E(2), E(0)];
    SubCase(P, Q);
  }

  lemma SubCase(P: Polynomial, Q: Polynomial)
    requires P.coeffs == [E(2), E(0), E(1), E(0), E(1)] && Q.coeffs == [E(1), E(0), E(2), E(2), E(0)]
    requires Valid(3, P) && Valid(3, Q)
    ensures Polynomials.Sub(3, P, Q).coeffs == [E(1), E(0), E(2), E(1), E(1)]
  {
    var r := Polynomials.Sub(3, P, Q).coeffs;
    assert |r| <= 5 by {
      assert |Polynomials.Complement(3, Q).coeffs| == 5;
    }
    DifferenceIs(r);
  }

  lemma DifferenceIs(r: seq<Element>)
    requires |r| <= 5 && IsNormal(r)
    requires IsDifference(3, [E(2), E(0), E(1), E(0), E(1)], [E(1), E(0), E(2), E(2), E(0)], r)
    ensures r == [E(1), E(0), E(2), E(1), E(1)]
  {
    DifferenceCoefs(r);
    CanonicalByCoef(r, [E(1), E(0), E(2), E(1), E(1)]);
  }

  lemma DifferenceCoefs(r: seq<Element>)
    requires |r| <= 5
    requires IsDifference(3, [E(2), E(0), E(1), E(0), E(1)], [E(1), E(0), E(2), E(2), E(0)], r)
    ensures forall k :: Coef(r, k) == Coef([E(1), E(0), E(2), E(1), E(1)], k)
  {
    var x := [E(1), E(0), E(2), E(1), E(1)];
    forall k | 0 <= k < 5 ensures Coef(r, k) == Coef(x, k) {
      assert k == 0 || k == 1 || k == 2 || k == 3 || k == 4;
      assert ModArith.Mod(-1, 3) == 2 && ModArith.Mod(-2, 3) == 1;
    }
    AgreeBelow(r, x, 5);
  }

  /** `_multiply_element_to_polynomial`: `[1, 0, 2]` times 2 is `[2, 0, 1]`,
      and `[2, 2, 2, 1]` times 2 is `[1, 1, 1, 2]`. */
  lemma ScaleCase()
    ensures ToList(ElementsToPolynomial(3, ScaleBy(3, [E(1), E(0), E(2)], E(2)))) == [2, 0, 1]
    ensures ToList(ElementsToPolynomial(3, ScaleBy(3, [E(2), E(2), E(2), E(1)], E(2)))) == [1, 1, 1, 2]
  {
    ScaledShort();
    ScaledLong();
    FromReducedInts(3, [2, 0, 1]);
    FromReducedInts(3, [1, 1, 1, 2]);
  }

  lemma ScaledShort()
    ensures ScaleBy(3, [E(1), E(0), E(2)], E(2)) == [E(2), E(0), E(1)]
  {
    var r, x := ScaleBy(3, [E(1), E(0), E(2)], E(2)), [E(2), E(0), E(1)];
    ModThree();
    forall k | 0 <= k < 3 ensures Coef(r, k) == Coef(x, k) {
      assert k == 0 || k == 1 || k == 2;
    }
    AgreeBelow(r, x, 3);
    EqualByCoef(r, x);
  }

  lemma ScaledLong()
    ensures ScaleBy(3, [E(2), E(2), E(2), E(1)], E(2)) == [E(1), E(1), E(1), E(2)]
  {
    var r, x := ScaleBy(3, [E(2), E(2), E(2), E(1)], E(2)), [E(1), E(1), E(1), E(2)];
    ModThree();
    forall k | 0 <= k < 4 ensures Coef(r, k) == Coef(x, k) {
      assert k == 0 || k == 1 || k == 2 || k == 3;
    }
    AgreeBelow(r, x, 4);
    EqualByCoef(r, x);
  }

  /** `[1, 1] * [1, 2]` is `[1, 0, 2]`. */
  lemma PolynomialMul(P: Polynomial, Q: Polynomial)
    requires Valid(3, P) && ToList(P) == [1, 1]
    requires Valid(3, Q) && ToList(Q) == [1, 2]
    ensures ToList(Product(3, P, Q)) == [1, 0, 2]
  {
    ProductCase(P, Q);
  }

  lemma ProductCase(P: Polynomial, Q: Polynomial)
    requires Valid(3, P) && ToList(P) == [1, 1]
    requires Valid(3, Q) && ToList(Q) == [1, 2]
    ensures Product(3, P, Q).coeffs == [E(1), E(0), E(2)]
  {
    assert P.coeffs == [E(1), E(1)] && Q.coeffs == [E(1), E(2)];
    ProductIs(Product(3, P, Q).coeffs);
  }

  lemma ProductIs(r: seq<Element>)
    requires |r| <= 3 && IsNormal(r) && IsProduct(3, [E(1), E(1)], [E(1), E(2)], r)
    ensures r == [E(1), E(0), E(2)]
  {
    var x := [E(1), E(0), E(2)];
    forall k | 0 <= k < 3 ensures Coef(r, k) == Coef(x, k) {
      assert k == 0 || k == 1 || k == 2;
    }
    AgreeBelow(r, x, 3);
    CanonicalByCoef(r, x);
  }

  /** `[2, 2, 1] * [1, 2, 0]` is `[2, 0, 2, 2, 0]`. */
  lemma PolynomialMulLonger(P: Polynomial, Q: Polynomial)
    requires Valid(3, P) && ToList(P) == [2, 2, 1]
    requires Valid(3, Q) && ToList(Q) == [1, 2, 0]
    ensures ToList(Product(3, P, Q)) == [2, 0, 2, 2, 0]
  {
    assert P.coeffs == [E(2), E(2), E(1)] && Q.coeffs == [E(1), E(2), E(0)];
    var r := Product(3, P, Q).coeffs;
    LongerProductIs(r);
  }

  lemma LongerProductIs(r: seq<Element>)
    requires |r| <= 5 && IsNormal(r) && IsProduct(3, [E(2), E(2), E(1)], [E(1), E(2), E(0)], r)
    ensures r == [E(2), E(0), E(2), E(2), E(0)]
  {
    var x := [E(2), E(0), E(2), E(2), E(0)];
    assert ModArith.Mod(0, 3) == 0 && ModArith.Mod(2, 3) == 2 && ModArith.Mod(5, 3) == 2 && ModArith.Mod(6, 3) == 0;
    forall k | 0 <= k < 5 ensures Coef(r, k) == Coef(x, k) {
      ConvCoef3([E(2), E(2), E(1)], [E(1), E(2), E(0)], k);
      assert k == 0 || k == 1 || k == 2 || k == 3 || k == 4;
    }
    AgreeBelow(r, x, 5);
    CanonicalByCoef(r, x);
  }

  /** `[2, 1, 0] * [1, 1, 1]` is `[2, 0, 0, 1, 0]`. */
  lemma PolynomialMulThird(P: Polynomial, Q: Polynomial)
    requires Valid(3, P) && ToList(P) == [2, 1, 0]
    requires Valid(3, Q) && ToList(Q) == [1, 1, 1]
    ensures ToList(Product(3, P, Q)) == [2, 0, 0, 1, 0]
  {
    ThirdProductCase(P, Q);
  }

  lemma ThirdProductCase(P: Polynomial, Q: Polynomial)
    requires Valid(3, P) && ToList(P) == [2, 1, 0]
    requires Valid(3, Q) && ToList(Q) == [1, 1, 1]
    ensures Product(3, P, Q).coeffs == [E(2), E(0), E(0), E(1), E(0)]
  {
    assert P.coeffs == [E(2), E(1), E(0)] && Q.coeffs == [E(1), E(1), E(1)];
    ThirdProductIs(Product(3, P, Q).coeffs);
  }

  lemma ThirdProductIs(r: seq<Element>)
    requires |r| <= 5 && IsNormal(r) && IsProduct(3, [E(2), E(1), E(0)], [E(1), E(1), E(1)], r)
    ensures r == [E(2), E(0), E(0), E(1), E(0)]
  {
    var x := [E(2), E(0), E(0), E(1), E(0)];
    ModThree();
    forall k | 0 <= k < 5 ensures Coef(r, k) == Coef(x, k) {
      ConvCoef3([E(2), E(1), E(0)], [E(1), E(1), E(1)], k);
      assert k == 0 || k == 1 || k == 2 || k == 3 || k == 4;
    }
    AgreeBelow(r, x, 5);
    CanonicalByCoef(r, x);
  }

  /** The convolution sum for a factor of three coefficients, written out. */
  lemma ConvCoef3(a: seq<Element>, b: seq<Element>, k: int)
    requires |a| == 3
    ensures ConvCoef(a, b, k) == a[0].value * Coef(b, k - 2) + a[1].value * Coef(b, k - 1) + a[2].value * Coef(b, k)
  {
    var a1, a2 := a[1..], a[2..];
    assert a1[0] == a[1] && a1[1..] == a2 && a2[0] == a[2] && a2[1..] == [];
    assert ConvCoef(a2, b, k) == a[2].value * Coef(b, k);
    assert ConvCoef(a1, b, k) == a[1].value * Coef(b, k - 1) + ConvCoef(a2, b, k);
  }

  // The division loop, one pass at a time.

  /** What one subtraction of the division loop leaves of the window w, entry
      by entry: w minus e times the divisor b. */
  predicate Reduces(p: int, w: seq<Element>, b: seq<Element>, e: Element, d: seq<Element>)
    requires p >= 2
  {
    |w| == |b| == |d| &&
    forall i :: 0 <= i < |d| ==> d[i].value == ModArith.Mod(w[i].value - ModArith.Mod(e.value * b[i].value, p), p)
  }

  /** Reduces for windows of two entries, one entry at a time. */
  lemma Reduces2(p: int, w: seq<Element>, b: seq<Element>, e: Element, d: seq<Element>)
    requires p >= 2 && |w| == 2 && |b| == 2 && |d| == 2
    requires d[0].value == ModArith.Mod(w[0].value - ModArith.Mod(e.value * b[0].value, p), p)
    requires d[1].value == ModArith.Mod(w[1].value - ModArith.Mod(e.value * b[1].value, p), p)
    ensures Reduces(p, w, b, e, d)
  {
    forall i | 0 <= i < |d|
      ensures d[i].value == ModArith.Mod(w[i].value - ModArith.Mod(e.value * b[i].value, p), p)
    {
      assert i == 0 || i == 1;
    }
  }

  /** Reduces for windows of three entries, one entry at a time. */
  lemma Reduces3(p: int, w: seq<Element>, b: seq<Element>, e: Element, d: seq<Element>)
    requires p >= 2 && |w| == 3 && |b| == 3 && |d| == 3
    requires d[0].value == ModArith.Mod(w[0].value - ModArith.Mod(e.value * b[0].value, p), p)
    requires d[1].value == ModArith.Mod(w[1].value - ModArith.Mod(e.value * b[1].value, p), p)
    requires d[2].value == ModArith.Mod(w[2].value - ModArith.Mod(e.value * b[2].value, p), p)
    ensures Reduces(p, w, b, e, d)
  {
    forall i | 0 <= i < |d|
      ensures d[i].value == ModArith.Mod(w[i].value - ModArith.Mod(e.value * b[i].value, p), p)
    {
      assert i == 0 || i == 1 || i == 2;
    }
  }

  lemma Differs(p: int, w: seq<Element>, b: seq<Element>, e: Element, sc: seq<Element>, r: seq<Element>, d: seq<Element>)
    requires p >= 2 && Reduces(p, w, b, e, d) && |r| == |d|
    requires IsScaled(p, e, b, sc) && IsDifference(p, w, sc, r)
    ensures r == d
  {
    forall k ensures Coef(r, k) == Coef(d, k) {
      if 0 <= k < |d| {
        var i := |d| - 1 - k;
        assert Coef(sc, k) == ModArith.Mod(e.value * b[i].value, p);
        assert Coef(r, k) == ModArith.Mod(w[i].value - Coef(sc, k), p);
      }
    }
    EqualByCoef(r, d);
  }

  /** One subtraction of the division loop: the window w minus e times b is d. */
  lemma Subtracted(p: int, w: seq<Element>, b: seq<Element>, e: Element, d: seq<Element>)
    requires p >= 2 && Reduces(p, w, b, e, d)
    ensures SubtractElementwise(p, w, ScaleBy(p, b, e)) == d
  {
    var sc := ScaleBy(p, b, e);
    Differs(p, w, b, e, sc, SubtractElementwise(p, w, sc), d);
  }

  /** A pass of the division loop that brings down the next coefficient. */
  lemma DivLoopStep(p: int, c: seq<Element>, b: seq<Element>, i: nat, w: seq<Element>, qs: seq<Element>,
                    e: Element, d: seq<Element>)
    requires p >= 2 && 2 <= |b| && |b| + i < |c| && |w| == |b|
    requires Quotient(p, w[0], b[0]) == Some(e) && SubtractElementwise(p, w, ScaleBy(p, b, e)) == d
    ensures DivLoop(p, c, b, i, w, qs) == DivLoop(p, c, b, i + 1, d[1..] + [c[|b| + i]], qs + [e])
  {
  }

  /** The last pass of the division loop. */
  lemma DivLoopLast(p: int, c: seq<Element>, b: seq<Element>, i: nat, w: seq<Element>, qs: seq<Element>,
                    e: Element, d: seq<Element>)
    requires p >= 2 && 2 <= |b| && |b| + i == |c| && |w| == |b|
    requires Quotient(p, w[0], b[0]) == Some(e) && SubtractElementwise(p, w, ScaleBy(p, b, e)) == d
    ensures DivLoop(p, c, b, i, w, qs) == Ok(Division(qs + [e], d[1..]))
  {
  }

  /** A division loop of a single pass: dividend and divisor of equal length. */
  lemma OnePass(p: int, c: seq<Element>, b: seq<Element>, e: Element, d: seq<Element>)
    requires p >= 2 && |b| >= 2 && |c| == |b|
    requires Quotient(p, c[0], b[0]) == Some(e) && Reduces(p, c[..|b|], b, e, d)
    ensures DivLoop(p, c, b, 0, c[..|b|], []) == Ok(Division([e], d[1..]))
  {
    Subtracted(p, c[..|b|], b, e, d);
    DivLoopLast(p, c, b, 0, c[..|b|], [], e, d);
    assert [] + [e] == [e];
  }

  /** Two passes of the division loop: a dividend one coefficient longer than the divisor. */
  lemma TwoPasses(p: int, c: seq<Element>, b: seq<Element>,
                  e0: Element, d0: seq<Element>, e1: Element, d1: seq<Element>)
    requires p >= 2 && |b| >= 2 && |c| == |b| + 1
    requires Quotient(p, c[0], b[0]) == Some(e0) && Reduces(p, c[..|b|], b, e0, d0)
    requires |d0| == |b| && Quotient(p, d0[1], b[0]) == Some(e1) && Reduces(p, d0[1..] + [c[|b|]], b, e1, d1)
    ensures DivLoop(p, c, b, 0, c[..|b|], []) == Ok(Division([e0, e1], d1[1..]))
  {
    LastTwo(p, c, b, 0, c[..|b|], [], e0, d0, e1, d1);
    assert [] + [e0, e1] == [e0, e1];
  }

  /** Two passes of the division loop that each bring down a coefficient. */
  lemma StepTwice(p: int, c: seq<Element>, b: seq<Element>, i: nat, w: seq<Element>, qs: seq<Element>,
                  e0: Element, d0: seq<Element>, e1: Element, d1: seq<Element>)
    requires p >= 2 && |b| >= 2 && |b| + i + 1 < |c| && |w| == |b|
    requires Quotient(p, w[0], b[0]) == Some(e0) && Reduces(p, w, b, e0, d0)
    requires |d0| == |b| && Quotient(p, d0[1], b[0]) == Some(e1) && Reduces(p, d0[1..] + [c[|b| + i]], b, e1, d1)
    ensures DivLoop(p, c, b, i, w, qs) == DivLoop(p, c, b, i + 2, d1[1..] + [c[|b| + i + 1]], qs + [e0, e1])
  {
    var w1 := d0[1..] + [c[|b| + i]];
    Subtracted(p, w, b, e0, d0);
    Subtracted(p, w1, b, e1, d1);
    assert w1[0] == d0[1];
    DivLoopStep(p, c, b, i, w, qs, e0, d0);
    DivLoopStep(p, c, b, i + 1, w1, qs + [e0], e1, d1);
    assert qs + [e0] + [e1] == qs + [e0, e1];
  }

  /** The last two passes of the division loop. */
  lemma LastTwo(p: int, c: seq<Element>, b: seq<Element>, i: nat, w: seq<Element>, qs: seq<Element>,
                e0: Element, d0: seq<Element>, e1: Element, d1: seq<Element>)
    requires p >= 2 && |b| >= 2 && |b| + i + 1 == |c| && |w| == |b|
    requires Quotient(p, w[0], b[0]) == Some(e0) && Reduces(p, w, b, e0, d0)
    requires |d0| == |b| && Quotient(p, d0[1], b[0]) == Some(e1) && Reduces(p, d0[1..] + [c[|b| + i]], b, e1, d1)
    ensures DivLoop(p, c, b, i, w, qs) == Ok(Division(qs + [e0, e1], d1[1..]))
  {
    var w1 := d0[1..] + [c[|b| + i]];
    Subtracted(p, w, b, e0, d0);
    Subtracted(p, w1, b, e1, d1);
    assert w1[0] == d0[1];
    DivLoopStep(p, c, b, i, w, qs, e0, d0);
    DivLoopLast(p, c, b, i + 1, w1, qs + [e0], e1, d1);
    assert qs + [e0] + [e1] == qs + [e0, e1];
  }

  /** Three passes of the division loop, for a divisor of length at least 2
      and a dividend two coefficients longer. */
  lemma ThreePasses(p: int, c: seq<Element>, b: seq<Element>,
                    e0: Element, d0: seq<Element>, e1: Element, d1: seq<Element>, e2: Element, d2: seq<Element>)
    requires p >= 2 && |b| >= 2 && |c| == |b| + 2
    requires Quotient(p, c[0], b[0]) == Some(e0) && Reduces(p, c[..|b|], b, e0, d0)
    requires |d0| == |b| && Quotient(p, d0[1], b[0]) == Some(e1) && Reduces(p, d0[1..] + [c[|b|]], b, e1, d1)
    requires |d1| == |b| && Quotient(p, d1[1], b[0]) == Some(e2) && Reduces(p, d1[1..] + [c[|b| + 1]], b, e2, d2)
    ensures DivLoop(p, c, b, 0, c[..|b|], []) == Ok(Division([e0, e1, e2], d2[1..]))
  {
    var w1, w2 := d0[1..] + [c[|b|]], d1[1..] + [c[|b| + 1]];
    Subtracted(p, c[..|b|], b, e0, d0);
    Subtracted(p, w1, b, e1, d1);
    Subtracted(p, w2, b, e2, d2);
    assert w1[0] == d0[1] && w2[0] == d1[1];
    DivLoopStep(p, c, b, 0, c[..|b|], [], e0, d0);
    assert [] + [e0] == [e0];
    DivLoopStep(p, c, b, 1, w1, [e0], e1, d1);
    DivLoopLast(p, c, b, 2, w2, [e0] + [e1], e2, d2);
    assert [e0] + [e1] + [e2] == [e0, e1, e2];
  }

  /** Four passes of the division loop: a dividend three coefficients longer
      than the divisor. */
  lemma FourPasses(p: int, c: seq<Element>, b: seq<Element>,
                   e0: Element, d0: seq<Element>, e1: Element, d1: seq<Element>,
                   e2: Element, d2: seq<Element>, e3: Element, d3: seq<Element>)
    requires p >= 2 && |b| >= 2 && |c| == |b| + 3
    requires Quotient(p, c[0], b[0]) == Some(e0) && Reduces(p, c[..|b|], b, e0, d0)
    requires |d0| == |b| && Quotient(p, d0[1], b[0]) == Some(e1) && Reduces(p, d0[1..] + [c[|b|]], b, e1, d1)
    requires |d1| == |b| && Quotient(p, d1[1], b[0]) == Some(e2) && Reduces(p, d1[1..] + [c[|b| + 1]], b, e2, d2)
    requires |d2| == |b| && Quotient(p, d2[1], b[0]) == Some(e3) && Reduces(p, d2[1..] + [c[|b| + 2]], b, e3, d3)
    ensures DivLoop(p, c, b, 0, c[..|b|], []) == Ok(Division([e0, e1, e2, e3], d3[1..]))
  {
    var w2 := d1[1..] + [c[|b| + 1]];
    StepTwice(p, c, b, 0, c[..|b|], [], e0, d0, e1, d1);
    assert d1[1] == w2[0];
    LastTwo(p, c, b, 2, w2, [] + [e0, e1], e2, d2, e3, d3);
    assert [] + [e0, e1] + [e2, e3] == [e0, e1, e2, e3];
  }

  // Division and remainder.

  /** `[1, 1] / [2, 2]`: one pass with digit 2, leaving the window `[0]`. */
  lemma EqualLengthCase(c: seq<Element>, b: seq<Element>)
    requires |c| == 2 && c[0] == E(1) && c[1] == E(1)
    requires |b| == 2 && b[0] == E(2) && b[1] == E(2)
    ensures DivLoop(3, c, b, 0, c[..2], []) == Ok(Division([E(2)], [E(0)]))
  {
    var d := [E(0), E(0)];
    ModThree();
    Reduces2(3, c[..2], b, E(2), d);
    assert Quotient(3, E(1), E(2)) == Some(E(2));
    OnePass(3, c, b, E(2), d);
    assert d[1..] == [E(0)];
  }

  /** `[1, 1] / [2, 2]` is `[2]`. */
  lemma PolynomialDivEqual(P: Polynomial, Q: Polynomial)
    requires Valid(3, P) && ToList(P) == [1, 1]
    requires Valid(3, Q) && ToList(Q) == [2, 2]
    ensures TrueDiv(3, P, Q) == Ok(Polynomial([E(2)]))
    ensures ToList(TrueDiv(3, P, Q).value) == [2]
  {
    var a, b := P.coeffs, Q.coeffs;
    assert a[0].value == 1 && a[1].value == 1 && b[0].value == 2 && b[1].value == 2;
    EqualLengthCase(a, b);
    FromReducedInts(3, [2]);
  }

  /** The three windows of `[1, 1, 2, 0, 1] / [1, 0, 2]`. */
  lemma DivWindows(c: seq<Element>, b: seq<Element>, d0: seq<Element>, d1: seq<Element>, d2: seq<Element>)
    requires |c| == 5 && c[0] == E(1) && c[1] == E(1) && c[2] == E(2) && c[3] == E(0) && c[4] == E(1)
    requires |b| == 3 && b[0] == E(1) && b[1] == E(0) && b[2] == E(2)
    requires d0 == [E(0), E(1), E(0)] && d1 == [E(0), E(0), E(1)] && d2 == [E(0), E(1), E(1)]
    ensures Reduces(3, c[..3], b, E(1), d0)
    ensures Reduces(3, d0[1..] + [c[3]], b, E(1), d1)
    ensures Reduces(3, d1[1..] + [c[4]], b, E(0), d2)
  {
    assert ModArith.Mod(0, 3) == 0 && ModArith.Mod(1, 3) == 1 && ModArith.Mod(2, 3) == 2;
    assert ModArith.Mod(-2, 3) == 1;
    Reduces3(3, c[..3], b, E(1), d0);
    Reduces3(3, d0[1..] + [c[3]], b, E(1), d1);
    Reduces3(3, d1[1..] + [c[4]], b, E(0), d2);
  }

  /** The three passes of the loop for `[1, 1, 2, 0, 1] / [1, 0, 2]`. The
      lists are described entry by entry, so that the solver steps the loop
      one pass at a time instead of evaluating it outright. */
  lemma DivLoopCase(c: seq<Element>, b: seq<Element>)
    requires |c| == 5 && c[0] == E(1) && c[1] == E(1) && c[2] == E(2) && c[3] == E(0) && c[4] == E(1)
    requires |b| == 3 && b[0] == E(1) && b[1] == E(0) && b[2] == E(2)
    ensures DivLoop(3, c, b, 0, c[..3], []) == Ok(Division([E(1), E(1), E(0)], [E(1), E(1)]))
  {
    var d0, d1, d2 := [E(0), E(1), E(0)], [E(0), E(0), E(1)], [E(0), E(1), E(1)];
    DivWindows(c, b, d0, d1, d2);
    assert Quotient(3, E(1), E(1)) == Some(E(1)) && Quotient(3, E(0), E(1)) == Some(E(0));
    ThreePasses(3, c, b, E(1), d0, E(1), d1, E(0), d2);
    assert d2[1..] == [E(1), E(1)];
  }

  /** `[1, 1, 2, 0, 1] / [1, 0, 2]` is `[1, 1, 0]`, and `%` gives `[1, 1]`. */
  lemma PolynomialDivMod(P: Polynomial, Q: Polynomial)
    requires Valid(3, P) && ToList(P) == [1, 1, 2, 0, 1]
    requires Valid(3, Q) && ToList(Q) == [1, 0, 2]
    ensures DivRem(3, P, Q) == Ok(Division([E(1), E(1), E(0)], [E(1), E(1)]))
    ensures TrueDiv(3, P, Q).Ok? && ToList(TrueDiv(3, P, Q).value) == [1, 1, 0]
    ensures ModPoly(3, P, Q).Ok? && ToList(ModPoly(3, P, Q).value) == [1, 1]
  {
    var a, b := P.coeffs, Q.coeffs;
    assert a[0].value == 1 && a[1].value == 1 && a[2].value == 2 && a[3].value == 0 && a[4].value == 1;
    assert b[0].value == 1 && b[1].value == 0 && b[2].value == 2;
    DivLoopCase(a, b);
    assert Q != ZeroPoly;
    Rebuilt();
  }

  lemma Rebuilt()
    ensures ToList(ElementsToPolynomial(3, [E(1), E(1), E(0)])) == [1, 1, 0]
    ensures ToList(ElementsToPolynomial(3, [E(1), E(1)])) == [1, 1]
  {
    FromReducedInts(3, [1, 1, 0]);
    FromReducedInts(3, [1, 1]);
  }

  /** `[2, 1] / [1, 1, 0, 2, 1]` is `[0]`: the divisor is longer. */
  lemma PolynomialDivShort(P: Polynomial, Q: Polynomial)
    requires Valid(3, P) && ToList(P) == [2, 1]
    requires Valid(3, Q) && ToList(Q) == [1, 1, 0, 2, 1]
    ensures TrueDiv(3, P, Q) == Ok(ZeroPoly)
  {
  }

  /** A divisor longer than the dividend: quotient `[0]`, remainder the dividend. */
  lemma ShortDividend(P: Polynomial, Q: Polynomial)
    requires Valid(3, P) && ToList(P) == [1, 0, 2]
    requires Valid(3, Q) && ToList(Q) == [1, 1, 2, 0, 1]
    ensures TrueDiv(3, P, Q) == Ok(ZeroPoly) && ModPoly(3, P, Q) == Ok(P)
  {
  }

  /** `[1, 0, 1] % [1, 0, 2]`: one pass with digit 1, leaving the window `[0, 2]`. */
  lemma ModOnceCase(c: seq<Element>, b: seq<Element>)
    requires |c| == 3 && c[0] == E(1) && c[1] == E(0) && c[2] == E(1)
    requires |b| == 3 && b[0] == E(1) && b[1] == E(0) && b[2] == E(2)
    ensures DivLoop(3, c, b, 0, c[..3], []) == Ok(Division([E(1)], [E(0), E(2)]))
  {
    var d := [E(0), E(0), E(2)];
    ModThree();
    Reduces3(3, c[..3], b, E(1), d);
    assert Quotient(3, E(1), E(1)) == Some(E(1));
    OnePass(3, c, b, E(1), d);
    assert d[1..] == [E(0), E(2)];
  }

  /** `[1, 0, 1] % [1, 0, 2]` is `[2]`: the leading zero of the remainder window goes. */
  lemma PolynomialModOnce(P: Polynomial, Q: Polynomial)
    requires Valid(3, P) && ToList(P) == [1, 0, 1]
    requires Valid(3, Q) && ToList(Q) == [1, 0, 2]
    ensures ModPoly(3, P, Q) == Ok(Polynomial([E(2)]))
    ensures ToList(ModPoly(3, P, Q).value) == [2]
  {
    var a, b := P.coeffs, Q.coeffs;
    assert a[0].value == 1 && a[1].value == 0 && a[2].value == 1;
    assert b[0].value == 1 && b[1].value == 0 && b[2].value == 2;
    ModOnceCase(a, b);
    assert Q != ZeroPoly;
    FromReducedInts(3, [2]);
  }

  /** `P % [0]` raises `ZeroDivisionError`. */
  lemma ModByZero(P: Polynomial)
    requires Valid(3, P)
    ensures ModPoly(3, P, ZeroPoly) == Failure(ZeroDivisor)
  {
  }

  lemma MonicIs(r: seq<Element>)
    requires |r| == 4 && AllElements(3, r)
    requires forall k :: ModArith.Mod(Coef(r, k) * 2, 3) == Coef([E(2), E(0), E(2), E(1)], k)
    ensures r == [E(1), E(0), E(1), E(2)]
  {
    var x := [E(1), E(0), E(1), E(2)];
    assert ModArith.Mod(0, 3) == 0 && ModArith.Mod(2, 3) == 2 && ModArith.Mod(4, 3) == 1;
    forall k | 0 <= k < 4 ensures Coef(r, k) == Coef(x, k) {
      assert k == 0 || k == 1 || k == 2 || k == 3;
      assert Coef(r, k) == 0 || Coef(r, k) == 1 || Coef(r, k) == 2;
      assert ModArith.Mod(Coef(r, k) * 2, 3) == Coef([E(2), E(0), E(2), E(1)], k);
    }
    AgreeBelow(r, x, 4);
    EqualByCoef(r, x);
  }

  /** `[2, 0, 2, 1].tomonic()` is `[1, 0, 1, 2]`. */
  lemma MonicCase(P: Polynomial)
    requires Valid(3, P) && ToList(P) == [2, 0, 2, 1]
    ensures IsUnit(3, Lead(P)) && ToList(ToMonic(3, P)) == [1, 0, 1, 2]
  {
    assert P.coeffs == [E(2), E(0), E(2), E(1)];
    assert Quotient(3, One, E(2)) == Some(E(2));
    MonicIs(ToMonic(3, P).coeffs);
  }

  // Base-n digits.

  /** `decimal_to_base_n(0, n)` is `[0]`; a negative input fails the assertion. */
  lemma BaseNZero()
    ensures ToBaseN(0, 3) == Some([0]) && ToBaseN(-1, 3) == None
  {
  }

  /** 5 in base 2. */
  lemma BaseNBinary()
    ensures ToBaseN(5, 2) == Some([1, 0, 1])
  {
    assert Digits(1, 2) == [1];
    assert Digits(2, 2) == [1, 0];
    assert Digits(5, 2) == [1, 0, 1];
  }

  /** 26 in base 3. */
  lemma BaseNTernary()
    ensures ToBaseN(26, 3) == Some([2, 2, 2])
  {
    assert Digits(2, 3) == [2];
    assert Digits(8, 3) == [2, 2];
    assert Digits(26, 3) == [2, 2, 2];
  }
}
