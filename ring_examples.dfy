/** The concrete cases of the repository's unit tests (test.py) for
    `PolynomialOnRing`, with p = 3 and the ring modulus x^2 + 2, `[1, 0, 2]`.
    Each case computes the plain result, follows the reduction by the
    modulus pass by pass, and reads back the rebuilt list. */
module RingExamples {
  import opened Wrappers
  import opened Field
  import opened Polynomials
  import opened PolynomialDivision
  import opened QuotientRing
  import opened Examples

  lemma SumCase(P: Polynomial, Q: Polynomial)
    requires Valid(3, P) && ToList(P) == [1, 1, 2]
    requires Valid(3, Q) && ToList(Q) == [1, 2, 0]
    ensures Polynomials.Add(3, P, Q).coeffs == [E(2), E(0), E(2)]
  {
    assert P.coeffs == [E(1), E(1), E(2)] && Q.coeffs == [E(1), E(2), E(0)];
    SumIs(Polynomials.Add(3, P, Q).coeffs);
  }

  lemma SumIs(r: seq<Element>)
    requires |r| <= 3 && IsNormal(r) && IsSum(3, [E(1), E(1), E(2)], [E(1), E(2), E(0)], r)
    ensures r == [E(2), E(0), E(2)]
  {
    var x := [E(2), E(0), E(2)];
    forall k | 0 <= k < 3 ensures Coef(r, k) == Coef(x, k) {
      assert k == 0 || k == 1 || k == 2;
    }
    AgreeBelow(r, x, 3);
    CanonicalByCoef(r, x);
  }

  /** Reducing `[2, 0, 2]` by `[1, 0, 2]`: one pass, remainder window `[0, 1]`. */
  lemma ReduceCase(c: seq<Element>, b: seq<Element>)
    requires |c| == 3 && c[0] == E(2) && c[1] == E(0) && c[2] == E(2)
    requires |b| == 3 && b[0] == E(1) && b[1] == E(0) && b[2] == E(2)
    ensures DivLoop(3, c, b, 0, c[..3], []) == Ok(Division([E(2)], [E(0), E(1)]))
  {
    var d := [E(0), E(0), E(1)];
    assert ModArith.Mod(0, 3) == 0 && ModArith.Mod(1, 3) == 1 && ModArith.Mod(2, 3) == 2 && ModArith.Mod(4, 3) == 1;
    Reduces3(3, c[..3], b, E(2), d);
    assert Quotient(3, E(2), E(1)) == Some(E(2));
    OnePass(3, c, b, E(2), d);
    assert d[1..] == [E(0), E(1)];
  }

  /** A two-entry remainder window with a nonzero lead reads back as itself. */
  lemma RebuiltPair(x0: int, x1: int)
    requires 0 < x0 < 3 && 0 <= x1 < 3
    ensures ToList(ElementsToPolynomial(3, [E(x0), E(x1)])) == [x0, x1]
  {
    FromReducedInts(3, [x0, x1]);
  }

  lemma RebuiltOne()
    ensures ToList(ElementsToPolynomial(3, [E(0), E(1)])) == [1]
  {
  }

  /** In GF(3)[x]/(x^2 + 2), `[1, 1, 2] + [1, 2, 0]` is `[1]`. Construction
      itself does not reduce: both operands keep three coefficients. */
  lemma RingAddCase(m: Polynomial, P: Polynomial, Q: Polynomial)
    requires Valid(3, m) && ToList(m) == [1, 0, 2]
    requires Valid(3, P) && ToList(P) == [1, 1, 2]
    requires Valid(3, Q) && ToList(Q) == [1, 2, 0]
    ensures RingAdd(3, m, P, Q).Ok? && ToList(RingAdd(3, m, P, Q).value) == [1]
  {
    var S := Polynomials.Add(3, P, Q);
    SumCase(P, Q);
    var c, b := S.coeffs, m.coeffs;
    assert b[0].value == 1 && b[1].value == 0 && b[2].value == 2;
    ReduceCase(c, b);
    assert m != ZeroPoly;
    RebuiltOne();
  }

  /** Reducing `[1, 0, 2]` by itself leaves the remainder window `[0, 0]`. */
  lemma ReduceSelfCase(c: seq<Element>, b: seq<Element>)
    requires |c| == 3 && c[0] == E(1) && c[1] == E(0) && c[2] == E(2)
    requires |b| == 3 && b[0] == E(1) && b[1] == E(0) && b[2] == E(2)
    ensures DivLoop(3, c, b, 0, c[..3], []) == Ok(Division([E(1)], [E(0), E(0)]))
  {
    var d := [E(0), E(0), E(0)];
    assert ModArith.Mod(0, 3) == 0 && ModArith.Mod(1, 3) == 1 && ModArith.Mod(2, 3) == 2;
    Reduces3(3, c[..3], b, E(1), d);
    assert Quotient(3, E(1), E(1)) == Some(E(1));
    OnePass(3, c, b, E(1), d);
    assert d[1..] == [E(0), E(0)];
  }

  lemma RebuiltZero()
    ensures ElementsToPolynomial(3, [E(0), E(0)]) == ZeroPoly
  {
  }

  /** In GF(3)[x]/(x^2 + 2), `[1, 1] * [1, 2]` is `[0]`: the product is the modulus. */
  lemma RingMulCase(m: Polynomial, P: Polynomial, Q: Polynomial)
    requires Valid(3, m) && ToList(m) == [1, 0, 2]
    requires Valid(3, P) && ToList(P) == [1, 1]
    requires Valid(3, Q) && ToList(Q) == [1, 2]
    ensures RingMul(3, m, P, Q) == Ok(ZeroPoly)
  {
    var M := Product(3, P, Q);
    ProductCase(P, Q);
    var b := m.coeffs;
    assert b[0].value == 1 && b[1].value == 0 && b[2].value == 2;
    ReduceSelfCase(M.coeffs, b);
    assert m != ZeroPoly;
    RebuiltZero();
  }

  /** `[1, 2, 1, 0, 0] + [1, 1, 2, 1, 1]` before reduction: `[2, 0, 0, 1, 1]`. */
  lemma LongerSumCase(P: Polynomial, Q: Polynomial)
    requires Valid(3, P) && ToList(P) == [1, 2, 1, 0, 0]
    requires Valid(3, Q) && ToList(Q) == [1, 1, 2, 1, 1]
    ensures Polynomials.Add(3, P, Q).coeffs == [E(2), E(0), E(0), E(1), E(1)]
  {
    assert P.coeffs == [E(1), E(2), E(1), E(0), E(0)] && Q.coeffs == [E(1), E(1), E(2), E(1), E(1)];
    LongerSumIs(Polynomials.Add(3, P, Q).coeffs);
  }

  lemma LongerSumIs(r: seq<Element>)
    requires |r| <= 5 && IsNormal(r) && IsSum(3, [E(1), E(2), E(1), E(0), E(0)], [E(1), E(1), E(2), E(1), E(1)], r)
    ensures r == [E(2), E(0), E(0), E(1), E(1)]
  {
    var x := [E(2), E(0), E(0), E(1), E(1)];
    ModThree();
    forall k | 0 <= k < 5 ensures Coef(r, k) == Coef(x, k) {
      assert k == 0 || k == 1 || k == 2 || k == 3 || k == 4;
    }
    AgreeBelow(r, x, 5);
    CanonicalByCoef(r, x);
  }

  /** The windows that ReduceLongerSum passes through, each the previous one minus a multiple of the divisor. */
  lemma LongerSumWindows(c: seq<Element>, b: seq<Element>, d0: seq<Element>, d1: seq<Element>, d2: seq<Element>)
    requires |c| == 5 && c[0] == E(2) && c[1] == E(0) && c[2] == E(0) && c[3] == E(1) && c[4] == E(1)
    requires |b| == 3 && b[0] == E(1) && b[1] == E(0) && b[2] == E(2)
    requires d0 == [E(0), E(0), E(2)] && d1 == [E(0), E(2), E(1)] && d2 == [E(0), E(1), E(0)]
    ensures Reduces(3, c[..3], b, E(2), d0)
    ensures Reduces(3, d0[1..] + [c[3]], b, E(0), d1)
    ensures Reduces(3, d1[1..] + [c[4]], b, E(2), d2)
  {
    ModThree();
    Reduces3(3, c[..3], b, E(2), d0);
    Reduces3(3, d0[1..] + [c[3]], b, E(0), d1);
    Reduces3(3, d1[1..] + [c[4]], b, E(2), d2);
  }

  /** Reducing `[2, 0, 0, 1, 1]` by `[1, 0, 2]`: digits `[2, 0, 2]`, window `[1, 0]`. */
  lemma ReduceLongerSum(c: seq<Element>, b: seq<Element>)
    requires |c| == 5 && c[0] == E(2) && c[1] == E(0) && c[2] == E(0) && c[3] == E(1) && c[4] == E(1)
    requires |b| == 3 && b[0] == E(1) && b[1] == E(0) && b[2] == E(2)
    ensures DivLoop(3, c, b, 0, c[..3], []) == Ok(Division([E(2), E(0), E(2)], [E(1), E(0)]))
  {
    var d0, d1, d2 := [E(0), E(0), E(2)], [E(0), E(2), E(1)], [E(0), E(1), E(0)];
    LongerSumWindows(c, b, d0, d1, d2);
    assert Quotient(3, E(2), E(1)) == Some(E(2)) && Quotient(3, E(0), E(1)) == Some(E(0));
    ThreePasses(3, c, b, E(2), d0, E(0), d1, E(2), d2);
    assert d2[1..] == [E(1), E(0)];
  }

  /** In GF(3)[x]/(x^2 + 2), `[1, 2, 1, 0, 0] + [1, 1, 2, 1, 1]` is `[1, 0]`. */
  lemma RingAddLonger(m: Polynomial, P: Polynomial, Q: Polynomial)
    requires Valid(3, m) && ToList(m) == [1, 0, 2]
    requires Valid(3, P) && ToList(P) == [1, 2, 1, 0, 0]
    requires Valid(3, Q) && ToList(Q) == [1, 1, 2, 1, 1]
    ensures RingAdd(3, m, P, Q).Ok? && ToList(RingAdd(3, m, P, Q).value) == [1, 0]
  {
    var S := Polynomials.Add(3, P, Q);
    LongerSumCase(P, Q);
    assert ToList(S) == [2, 0, 0, 1, 1];
    LongerSumReduced(S, m);
    RebuiltPair(1, 0);
  }

  lemma LongerSumReduced(S: Polynomial, m: Polynomial)
    requires Valid(3, m) && ToList(m) == [1, 0, 2]
    requires Valid(3, S) && ToList(S) == [2, 0, 0, 1, 1]
    ensures ModPoly(3, S, m) == Ok(ElementsToPolynomial(3, [E(1), E(0)]))
  {
    var c, b := S.coeffs, m.coeffs;
    assert c[0].value == 2 && c[1].value == 0 && c[2].value == 0 && c[3].value == 1 && c[4].value == 1;
    assert b[0].value == 1 && b[1].value == 0 && b[2].value == 2;
    ReduceLongerSum(c, b);
    assert m != ZeroPoly;
  }

  /** In GF(3)[x]/(x^2 + 2), `[2, 0, 1] + [1, 0, 2]` is `[0]`: the sum is
      already zero, and `[0]` is shorter than the modulus. */
  lemma RingAddToZero(m: Polynomial, P: Polynomial, Q: Polynomial)
    requires Valid(3, m) && ToList(m) == [1, 0, 2]
    requires Valid(3, P) && ToList(P) == [2, 0, 1]
    requires Valid(3, Q) && ToList(Q) == [1, 0, 2]
    ensures RingAdd(3, m, P, Q) == Ok(ZeroPoly) && ToList(ZeroPoly) == [0]
  {
    FromToList(3, P);
    FromToList(3, Q);
    PolynomialAddToZero();
  }

  /** The windows that ReduceDifference passes through, each the previous one minus a multiple of the divisor. */
  lemma DifferenceWindows(c: seq<Element>, b: seq<Element>, d0: seq<Element>, d1: seq<Element>, d2: seq<Element>)
    requires |c| == 5 && c[0] == E(1) && c[1] == E(0) && c[2] == E(2) && c[3] == E(1) && c[4] == E(1)
    requires |b| == 3 && b[0] == E(1) && b[1] == E(0) && b[2] == E(2)
    requires d0 == [E(0), E(0), E(0)] && d1 == [E(0), E(0), E(1)] && d2 == [E(0), E(1), E(1)]
    ensures Reduces(3, c[..3], b, E(1), d0)
    ensures Reduces(3, d0[1..] + [c[3]], b, E(0), d1)
    ensures Reduces(3, d1[1..] + [c[4]], b, E(0), d2)
  {
    ModThree();
    Reduces3(3, c[..3], b, E(1), d0);
    Reduces3(3, d0[1..] + [c[3]], b, E(0), d1);
    Reduces3(3, d1[1..] + [c[4]], b, E(0), d2);
  }

  /** Reducing `[1, 0, 2, 1, 1]` by `[1, 0, 2]`: digits `[1, 0, 0]`, window `[1, 1]`. */
  lemma ReduceDifference(c: seq<Element>, b: seq<Element>)
    requires |c| == 5 && c[0] == E(1) && c[1] == E(0) && c[2] == E(2) && c[3] == E(1) && c[4] == E(1)
    requires |b| == 3 && b[0] == E(1) && b[1] == E(0) && b[2] == E(2)
    ensures DivLoop(3, c, b, 0, c[..3], []) == Ok(Division([E(1), E(0), E(0)], [E(1), E(1)]))
  {
    var d0, d1, d2 := [E(0), E(0), E(0)], [E(0), E(0), E(1)], [E(0), E(1), E(1)];
    DifferenceWindows(c, b, d0, d1, d2);
    assert Quotient(3, E(1), E(1)) == Some(E(1)) && Quotient(3, E(0), E(1)) == Some(E(0));
    ThreePasses(3, c, b, E(1), d0, E(0), d1, E(0), d2);
    assert d2[1..] == [E(1), E(1)];
  }

  /** `[1, 0, 2]` is a ring modulus over GF(3): its leading coefficient is 1. */
  lemma ModulusOk(m: Polynomial)
    requires Valid(3, m) && ToList(m) == [1, 0, 2]
    ensures RingModulus(3, m) && m.coeffs == [E(1), E(0), E(2)]
  {
    assert m.coeffs == [E(1), E(0), E(2)];
    assert Quotient(3, One, E(1)) == Some(E(1));
  }

  /** In GF(3)[x]/(x^2 + 2), `[2, 0, 1, 0, 1] - [1, 0, 2, 2, 0]` is `[1, 1]`. */
  lemma RingSubCase(m: Polynomial, P: Polynomial, Q: Polynomial)
    requires Valid(3, m) && ToList(m) == [1, 0, 2]
    requires Valid(3, P) && ToList(P) == [2, 0, 1, 0, 1]
    requires Valid(3, Q) && ToList(Q) == [1, 0, 2, 2, 0]
    ensures RingSub(3, m, P, Q).Ok? && ToList(RingSub(3, m, P, Q).value) == [1, 1]
  {
    ModulusOk(m);
    assert P.coeffs == [E(2), E(0), E(1), E(0), E(1)] && Q.coeffs == [E(1), E(0), E(2), E(2), E(0)];
    var D := Polynomials.Sub(3, P, Q);
    SubCase(P, Q);
    assert ToList(D) == [1, 0, 2, 1, 1];
    DifferenceReduced(D, m);
    Rebuilt();
  }

  lemma DifferenceReduced(D: Polynomial, m: Polynomial)
    requires Valid(3, m) && ToList(m) == [1, 0, 2]
    requires Valid(3, D) && ToList(D) == [1, 0, 2, 1, 1]
    ensures ModPoly(3, D, m) == Ok(ElementsToPolynomial(3, [E(1), E(1)]))
  {
    var c, b := D.coeffs, m.coeffs;
    assert c[0].value == 1 && c[1].value == 0 && c[2].value == 2 && c[3].value == 1 && c[4].value == 1;
    assert b[0].value == 1 && b[1].value == 0 && b[2].value == 2;
    ReduceDifference(c, b);
    assert m != ZeroPoly;
  }

  /** The windows that ReduceLongerProduct passes through, each the previous one minus a multiple of the divisor. */
  lemma LongerProductWindows(c: seq<Element>, b: seq<Element>, d0: seq<Element>, d1: seq<Element>, d2: seq<Element>)
    requires |c| == 5 && c[0] == E(2) && c[1] == E(0) && c[2] == E(2) && c[3] == E(2) && c[4] == E(0)
    requires |b| == 3 && b[0] == E(1) && b[1] == E(0) && b[2] == E(2)
    requires d0 == [E(0), E(0), E(1)] && d1 == [E(0), E(1), E(2)] && d2 == [E(0), E(2), E(1)]
    ensures Reduces(3, c[..3], b, E(2), d0)
    ensures Reduces(3, d0[1..] + [c[3]], b, E(0), d1)
    ensures Reduces(3, d1[1..] + [c[4]], b, E(1), d2)
  {
    ModThree();
    Reduces3(3, c[..3], b, E(2), d0);
    Reduces3(3, d0[1..] + [c[3]], b, E(0), d1);
    Reduces3(3, d1[1..] + [c[4]], b, E(1), d2);
  }

  /** Reducing `[2, 0, 2, 2, 0]` by `[1, 0, 2]`: digits `[2, 0, 1]`, window `[2, 1]`. */
  lemma ReduceLongerProduct(c: seq<Element>, b: seq<Element>)
    requires |c| == 5 && c[0] == E(2) && c[1] == E(0) && c[2] == E(2) && c[3] == E(2) && c[4] == E(0)
    requires |b| == 3 && b[0] == E(1) && b[1] == E(0) && b[2] == E(2)
    ensures DivLoop(3, c, b, 0, c[..3], []) == Ok(Division([E(2), E(0), E(1)], [E(2), E(1)]))
  {
    var d0, d1, d2 := [E(0), E(0), E(1)], [E(0), E(1), E(2)], [E(0), E(2), E(1)];
    LongerProductWindows(c, b, d0, d1, d2);
    assert Quotient(3, E(2), E(1)) == Some(E(2)) && Quotient(3, E(0), E(1)) == Some(E(0));
    assert Quotient(3, E(1), E(1)) == Some(E(1));
    ThreePasses(3, c, b, E(2), d0, E(0), d1, E(1), d2);
    assert d2[1..] == [E(2), E(1)];
  }

  /** In GF(3)[x]/(x^2 + 2), `[2, 2, 1] * [1, 2, 0]` is `[2, 1]`. */
  lemma RingMulLonger(m: Polynomial, P: Polynomial, Q: Polynomial)
    requires Valid(3, m) && ToList(m) == [1, 0, 2]
    requires Valid(3, P) && ToList(P) == [2, 2, 1]
    requires Valid(3, Q) && ToList(Q) == [1, 2, 0]
    ensures RingMul(3, m, P, Q).Ok? && ToList(RingMul(3, m, P, Q).value) == [2, 1]
  {
    assert P.coeffs == [E(2), E(2), E(1)] && Q.coeffs == [E(1), E(2), E(0)];
    var M := Product(3, P, Q);
    LongerProductIs(M.coeffs);
    assert ToList(M) == [2, 0, 2, 2, 0];
    LongerProductReduced(M, m);
    RebuiltPair(2, 1);
  }

  lemma LongerProductReduced(M: Polynomial, m: Polynomial)
    requires Valid(3, m) && ToList(m) == [1, 0, 2]
    requires Valid(3, M) && ToList(M) == [2, 0, 2, 2, 0]
    ensures ModPoly(3, M, m) == Ok(ElementsToPolynomial(3, [E(2), E(1)]))
  {
    var c, b := M.coeffs, m.coeffs;
    assert c[0].value == 2 && c[1].value == 0 && c[2].value == 2 && c[3].value == 2 && c[4].value == 0;
    assert b[0].value == 1 && b[1].value == 0 && b[2].value == 2;
    ReduceLongerProduct(c, b);
    assert m != ZeroPoly;
  }

  /** The windows that ReduceThirdProduct passes through, each the previous one minus a multiple of the divisor. */
  lemma ThirdProductWindows(c: seq<Element>, b: seq<Element>, d0: seq<Element>, d1: seq<Element>, d2: seq<Element>)
    requires |c| == 5 && c[0] == E(2) && c[1] == E(0) && c[2] == E(0) && c[3] == E(1) && c[4] == E(0)
    requires |b| == 3 && b[0] == E(1) && b[1] == E(0) && b[2] == E(2)
    requires d0 == [E(0), E(0), E(2)] && d1 == [E(0), E(2), E(1)] && d2 == [E(0), E(1), E(2)]
    ensures Reduces(3, c[..3], b, E(2), d0)
    ensures Reduces(3, d0[1..] + [c[3]], b, E(0), d1)
    ensures Reduces(3, d1[1..] + [c[4]], b, E(2), d2)
  {
    ModThree();
    Reduces3(3, c[..3], b, E(2), d0);
    Reduces3(3, d0[1..] + [c[3]], b, E(0), d1);
    Reduces3(3, d1[1..] + [c[4]], b, E(2), d2);
  }

  /** Reducing `[2, 0, 0, 1, 0]` by `[1, 0, 2]`: digits `[2, 0, 2]`, window `[1, 2]`. */
  lemma ReduceThirdProduct(c: seq<Element>, b: seq<Element>)
    requires |c| == 5 && c[0] == E(2) && c[1] == E(0) && c[2] == E(0) && c[3] == E(1) && c[4] == E(0)
    requires |b| == 3 && b[0] == E(1) && b[1] == E(0) && b[2] == E(2)
    ensures DivLoop(3, c, b, 0, c[..3], []) == Ok(Division([E(2), E(0), E(2)], [E(1), E(2)]))
  {
    var d0, d1, d2 := [E(0), E(0), E(2)], [E(0), E(2), E(1)], [E(0), E(1), E(2)];
    ThirdProductWindows(c, b, d0, d1, d2);
    assert Quotient(3, E(2), E(1)) == Some(E(2)) && Quotient(3, E(0), E(1)) == Some(E(0));
    ThreePasses(3, c, b, E(2), d0, E(0), d1, E(2), d2);
    assert d2[1..] == [E(1), E(2)];
  }

  /** In GF(3)[x]/(x^2 + 2), `[2, 1, 0] * [1, 1, 1]` is `[1, 2]`. */
  lemma RingMulThird(m: Polynomial, P: Polynomial, Q: Polynomial)
    requires Valid(3, m) && ToList(m) == [1, 0, 2]
    requires Valid(3, P) && ToList(P) == [2, 1, 0]
    requires Valid(3, Q) && ToList(Q) == [1, 1, 1]
    ensures RingMul(3, m, P, Q).Ok? && ToList(RingMul(3, m, P, Q).value) == [1, 2]
  {
    var M := Product(3, P, Q);
    ThirdProductCase(P, Q);
    var b := m.coeffs;
    assert b[0].value == 1 && b[1].value == 0 && b[2].value == 2;
    ReduceThirdProduct(M.coeffs, b);
    assert m != ZeroPoly;
    RebuiltPair(1, 2);
  }

  /** In GF(3)[x]/(x^2 + 2), `[1, 1] / [2, 2]` is `[2]`: the quotient is
      already shorter than the modulus. */
  lemma RingDivEqual(m: Polynomial, P: Polynomial, Q: Polynomial)
    requires Valid(3, m) && ToList(m) == [1, 0, 2]
    requires Valid(3, P) && ToList(P) == [1, 1]
    requires Valid(3, Q) && ToList(Q) == [2, 2]
    ensures RingDiv(3, m, P, Q) == Ok(Polynomial([E(2)])) && ToList(Polynomial([E(2)])) == [2]
  {
    PolynomialDivEqual(P, Q);
  }

  /** The windows that LongQuotientCase passes through, each the previous one minus a multiple of the divisor. */
  lemma LongQuotientWindows(c: seq<Element>, b: seq<Element>, d0: seq<Element>, d1: seq<Element>, d2: seq<Element>, d3: seq<Element>)
    requires |c| == 5 && c[0] == E(1) && c[1] == E(1) && c[2] == E(0) && c[3] == E(2) && c[4] == E(1)
    requires |b| == 2 && b[0] == E(2) && b[1] == E(1)
    requires d0 == [E(0), E(2)] && d1 == [E(0), E(2)] && d2 == [E(0), E(1)] && d3 == [E(0), E(2)]
    ensures Reduces(3, c[..2], b, E(2), d0)
    ensures Reduces(3, d0[1..] + [c[2]], b, E(1), d1)
    ensures Reduces(3, d1[1..] + [c[3]], b, E(1), d2)
    ensures Reduces(3, d2[1..] + [c[4]], b, E(2), d3)
  {
    ModThree();
    Reduces2(3, c[..2], b, E(2), d0);
    Reduces2(3, d0[1..] + [c[2]], b, E(1), d1);
    Reduces2(3, d1[1..] + [c[3]], b, E(1), d2);
    Reduces2(3, d2[1..] + [c[4]], b, E(2), d3);
  }

  /** `[1, 1, 0, 2, 1] / [2, 1]`: four passes, digits `[2, 1, 1, 2]`, window `[2]`. */
  lemma LongQuotientCase(c: seq<Element>, b: seq<Element>)
    requires |c| == 5 && c[0] == E(1) && c[1] == E(1) && c[2] == E(0) && c[3] == E(2) && c[4] == E(1)
    requires |b| == 2 && b[0] == E(2) && b[1] == E(1)
    ensures DivLoop(3, c, b, 0, c[..2], []) == Ok(Division([E(2), E(1), E(1), E(2)], [E(2)]))
  {
    var d0, d1, d2, d3 := [E(0), E(2)], [E(0), E(2)], [E(0), E(1)], [E(0), E(2)];
    LongQuotientWindows(c, b, d0, d1, d2, d3);
    assert Quotient(3, E(1), E(2)) == Some(E(2)) && Quotient(3, E(2), E(2)) == Some(E(1));
    FourPasses(3, c, b, E(2), d0, E(1), d1, E(1), d2, E(2), d3);
    assert d3[1..] == [E(2)];
  }

  /** `[1, 1, 0, 2, 1] / [2, 1]` before reduction: `[2, 1, 1, 2]`. */
  lemma LongQuotient(P: Polynomial, Q: Polynomial)
    requires Valid(3, P) && ToList(P) == [1, 1, 0, 2, 1]
    requires Valid(3, Q) && ToList(Q) == [2, 1]
    ensures TrueDiv(3, P, Q).Ok? && ToList(TrueDiv(3, P, Q).value) == [2, 1, 1, 2]
  {
    var a, b := P.coeffs, Q.coeffs;
    assert a[0].value == 1 && a[1].value == 1 && a[2].value == 0 && a[3].value == 2 && a[4].value == 1;
    assert b[0].value == 2 && b[1].value == 1;
    LongQuotientCase(a, b);
    RebuiltQuotient();
  }

  lemma RebuiltQuotient()
    ensures ToList(ElementsToPolynomial(3, [E(2), E(1), E(1), E(2)])) == [2, 1, 1, 2]
  {
    FromReducedInts(3, [2, 1, 1, 2]);
  }

  /** The windows that ReduceLongQuotient passes through, each the previous one minus a multiple of the divisor. */
  lemma ReducedQuotientWindows(c: seq<Element>, b: seq<Element>, d0: seq<Element>, d1: seq<Element>)
    requires |c| == 4 && c[0] == E(2) && c[1] == E(1) && c[2] == E(1) && c[3] == E(2)
    requires |b| == 3 && b[0] == E(1) && b[1] == E(0) && b[2] == E(2)
    requires d0 == [E(0), E(1), E(0)] && d1 == [E(0), E(0), E(0)]
    ensures Reduces(3, c[..3], b, E(2), d0)
    ensures Reduces(3, d0[1..] + [c[3]], b, E(1), d1)
  {
    ModThree();
    Reduces3(3, c[..3], b, E(2), d0);
    Reduces3(3, d0[1..] + [c[3]], b, E(1), d1);
  }

  /** Reducing `[2, 1, 1, 2]` by `[1, 0, 2]`: two passes, window `[0, 0]`. */
  lemma ReduceLongQuotient(c: seq<Element>, b: seq<Element>)
    requires |c| == 4 && c[0] == E(2) && c[1] == E(1) && c[2] == E(1) && c[3] == E(2)
    requires |b| == 3 && b[0] == E(1) && b[1] == E(0) && b[2] == E(2)
    ensures DivLoop(3, c, b, 0, c[..3], []) == Ok(Division([E(2), E(1)], [E(0), E(0)]))
  {
    var d0, d1 := [E(0), E(1), E(0)], [E(0), E(0), E(0)];
    ReducedQuotientWindows(c, b, d0, d1);
    assert Quotient(3, E(2), E(1)) == Some(E(2)) && Quotient(3, E(1), E(1)) == Some(E(1));
    TwoPasses(3, c, b, E(2), d0, E(1), d1);
    assert d1[1..] == [E(0), E(0)];
  }

  /** In GF(3)[x]/(x^2 + 2), `[1, 1, 0, 2, 1] / [2, 1]` is `[0]`: the plain
      quotient `[2, 1, 1, 2]` is a multiple of the modulus. */
  lemma RingDivLonger(m: Polynomial, P: Polynomial, Q: Polynomial)
    requires Valid(3, m) && ToList(m) == [1, 0, 2]
    requires Valid(3, P) && ToList(P) == [1, 1, 0, 2, 1]
    requires Valid(3, Q) && ToList(Q) == [2, 1]
    ensures RingDiv(3, m, P, Q) == Ok(ZeroPoly)
  {
    LongQuotient(P, Q);
    var T := TrueDiv(3, P, Q).value;
    assert T.coeffs == [E(2), E(1), E(1), E(2)];
    var b := m.coeffs;
    assert b[0].value == 1 && b[1].value == 0 && b[2].value == 2;
    ReduceLongQuotient(T.coeffs, b);
    assert m != ZeroPoly;
    RebuiltZero();
  }

  /** In GF(3)[x]/(x^2 + 2), `[2, 1] / [1, 1, 0, 2, 1]` is `[0]`. */
  lemma RingDivShort(m: Polynomial, P: Polynomial, Q: Polynomial)
    requires Valid(3, m) && ToList(m) == [1, 0, 2]
    requires Valid(3, P) && ToList(P) == [2, 1]
    requires Valid(3, Q) && ToList(Q) == [1, 1, 0, 2, 1]
    ensures RingDiv(3, m, P, Q) == Ok(ZeroPoly)
  {
    PolynomialDivShort(P, Q);
  }

  /** The windows that ModByOtherCase passes through, each the previous one minus a multiple of the divisor. */
  lemma ModByOtherWindows(c: seq<Element>, b: seq<Element>, d0: seq<Element>, d1: seq<Element>, d2: seq<Element>)
    requires |c| == 5 && c[0] == E(1) && c[1] == E(1) && c[2] == E(2) && c[3] == E(0) && c[4] == E(1)
    requires |b| == 3 && b[0] == E(1) && b[1] == E(0) && b[2] == E(1)
    requires d0 == [E(0), E(1), E(1)] && d1 == [E(0), E(1), E(2)] && d2 == [E(0), E(2), E(0)]
    ensures Reduces(3, c[..3], b, E(1), d0)
    ensures Reduces(3, d0[1..] + [c[3]], b, E(1), d1)
    ensures Reduces(3, d1[1..] + [c[4]], b, E(1), d2)
  {
    ModThree();
    Reduces3(3, c[..3], b, E(1), d0);
    Reduces3(3, d0[1..] + [c[3]], b, E(1), d1);
    Reduces3(3, d1[1..] + [c[4]], b, E(1), d2);
  }

  /** `[1, 1, 2, 0, 1] % [1, 0, 1]`: digits `[1, 1, 1]`, window `[2, 0]`. */
  lemma ModByOtherCase(c: seq<Element>, b: seq<Element>)
    requires |c| == 5 && c[0] == E(1) && c[1] == E(1) && c[2] == E(2) && c[3] == E(0) && c[4] == E(1)
    requires |b| == 3 && b[0] == E(1) && b[1] == E(0) && b[2] == E(1)
    ensures DivLoop(3, c, b, 0, c[..3], []) == Ok(Division([E(1), E(1), E(1)], [E(2), E(0)]))
  {
    var d0, d1, d2 := [E(0), E(1), E(1)], [E(0), E(1), E(2)], [E(0), E(2), E(0)];
    ModByOtherWindows(c, b, d0, d1, d2);
    assert Quotient(3, E(1), E(1)) == Some(E(1));
    ThreePasses(3, c, b, E(1), d0, E(1), d1, E(1), d2);
    assert d2[1..] == [E(2), E(0)];
  }

  /** In GF(3)[x]/(x^2 + 2), `[1, 1, 2, 0, 1] % [1, 0, 1]` is `[2, 0]`: the
      plain remainder is already shorter than the modulus. */
  lemma RingModCase(m: Polynomial, P: Polynomial, Q: Polynomial)
    requires Valid(3, m) && ToList(m) == [1, 0, 2]
    requires Valid(3, P) && ToList(P) == [1, 1, 2, 0, 1]
    requires Valid(3, Q) && ToList(Q) == [1, 0, 1]
    ensures RingMod(3, m, P, Q).Ok? && ToList(RingMod(3, m, P, Q).value) == [2, 0]
  {
    var a, b := P.coeffs, Q.coeffs;
    assert a[0].value == 1 && a[1].value == 1 && a[2].value == 2 && a[3].value == 0 && a[4].value == 1;
    assert b[0].value == 1 && b[1].value == 0 && b[2].value == 1;
    ModByOtherCase(a, b);
    assert Q != ZeroPoly;
    RebuiltPair(2, 0);
    assert |m.coeffs| == 3;
  }
}
