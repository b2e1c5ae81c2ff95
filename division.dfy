/** Long division of polynomials over GF(p): `_divide_with_remainder`,
    `__truediv__` and `__mod__` of class `Polynomial` in galois/polynomial.py.

    The loop keeps a window of |Q| coefficients. Each pass divides the window's
    leading coefficient by Q's, appends that digit to the quotient, subtracts
    the scaled divisor from the window, drops the window's (now zero) leading
    entry and brings down the next coefficient of the dividend. The source's
    crashes are error values here: a digit the element division cannot find
    (`None`, which the next multiplication rejects), a window whose length
    differs from the divisor's (the length assertion of the elementwise
    subtraction, reached when a constant divides a longer polynomial), and a
    modulus by the zero polynomial. */
module PolynomialDivision {
  import opened ModArith
  import opened Wrappers
  import opened Field
  import opened Polynomials

  /** How the source's division fails. */
  datatype Error =
    | DigitUndefined   // `element / polynomial2[0]` returned None
    | LengthMismatch   // `_subtract_elementwise` got lists of different lengths
    | ZeroDivisor      // `__mod__` by `Polynomial([0])` raises ZeroDivisionError

  datatype Result<T> = Ok(value: T) | Failure(error: Error)

  /** The quotient digits and the remainder window, as the source returns them. */
  datatype Division = Division(quotient: seq<Element>, remainder: seq<Element>)

  /** The dividend c is quotient * b + remainder, coefficient by coefficient. */
  ghost predicate IsDivision(p: int, c: seq<Element>, b: seq<Element>, D: Division)
    requires p >= 2
  {
    forall k {:trigger Coef(c, k)} :: Coef(c, k) == Mod(ConvCoef(D.quotient, b, k) + Coef(D.remainder, k), p)
  }

  /** A state of the loop: c is the digits qs times b raised by `shift` degrees,
      plus the window w standing just above the coefficients not yet brought
      down (tail), plus tail itself. */
  ghost predicate Splits(p: int, c: seq<Element>, qs: seq<Element>, b: seq<Element>,
                         w: seq<Element>, tail: seq<Element>, shift: int)
    requires p >= 2
  {
    forall k {:trigger Coef(c, k)} ::
      Coef(c, k) == Mod(ConvCoef(qs, b, k - shift) + Coef(w, k - |tail|) + Coef(tail, k), p)
  }

  /** Pass i of the loop of `_divide_with_remainder(c, b)`, with window w and
      digits qs. After the subtraction the window is `subtracted[-s+1:]`: its
      leading entry is dropped, except for a divisor of length 1, where the
      slice keeps the whole window. */
  function DivLoop(p: int, c: seq<Element>, b: seq<Element>, i: nat, w: seq<Element>, qs: seq<Element>): (r: Result<Division>)
    requires p >= 2 && 1 <= |b| && |b| + i <= |c| && |w| >= 1
    ensures r.Ok? ==> |r.value.quotient| == |qs| + |c| - |b| - i + 1
    ensures r.Ok? ==> |r.value.remainder| == if |b| >= 2 then |b| - 1 else 1
    ensures |b| == 1 && |c| > 1 + i ==> r.Failure?
    decreases |c| - |b| - i
  {
    var s := |b|;
    var q := Quotient(p, w[0], b[0]);
    if q.None? then Failure(DigitUndefined)
    else if |w| != s then Failure(LengthMismatch)
    else
      var d := SubtractElementwise(p, w, ScaleBy(p, b, q.value));
      var w' := if s >= 2 then d[1..] else d;
      if s + i == |c| then Ok(Division(qs + [q.value], w'))
      else DivLoop(p, c, b, i + 1, w' + [c[s + i]], qs + [q.value])
  }

  /** `_divide_with_remainder(P, Q)`: quotient `[0]` and remainder P when Q is
      the longer; otherwise |P| - |Q| + 1 digits and a window of |Q| - 1. */
  function DivRem(p: int, P: Polynomial, Q: Polynomial): (r: Result<Division>)
    requires p >= 2 && Valid(p, P) && Valid(p, Q)
    ensures r.Ok? ==> |r.value.quotient| == if |Q.coeffs| > |P.coeffs| then 1 else |P.coeffs| - |Q.coeffs| + 1
    ensures r.Ok? && 2 <= |Q.coeffs| <= |P.coeffs| ==> |r.value.remainder| == |Q.coeffs| - 1
    ensures r.Ok? ==> |r.value.remainder| >= 1
    ensures |Q.coeffs| == 1 < |P.coeffs| ==> r.Failure?
  {
    var a, b := P.coeffs, Q.coeffs;
    if |b| > |a| then Ok(Division(ZeroPoly.coeffs, a))
    else DivLoop(p, a, b, 0, a[..|b|], [])
  }

  /** The loop of `_divide_with_remainder`, with its early returns. */
  method DivideWithRemainder(p: int, P: Polynomial, Q: Polynomial) returns (r: Result<Division>)
    requires p >= 2 && Valid(p, P) && Valid(p, Q)
    ensures r == DivRem(p, P, Q)
  {
    var a, b := P.coeffs, Q.coeffs;
    if |b| > |a| {
      return Ok(Division(ZeroPoly.coeffs, a));
    }
    var s := |b|;
    var subtracted := a[..s];
    var quotient: seq<Element> := [];
    var i := 0;
    while i < |a| - s + 1
      invariant 0 <= i <= |a| - s && |subtracted| >= 1
      invariant DivLoop(p, a, b, i, subtracted, quotient) == DivRem(p, P, Q)
    {
      var q := Divide(p, subtracted[0], b[0]);
      if q.None? {
        return Failure(DigitUndefined);
      }
      var scaled := ScaleBy(p, b, q.value);
      if |subtracted| != s {
        return Failure(LengthMismatch);
      }
      quotient := quotient + [q.value];
      subtracted := SubtractElementwise(p, subtracted, scaled);
      subtracted := if s >= 2 then subtracted[1..] else subtracted;
      if s + i == |a| {
        return Ok(Division(quotient, subtracted));
      }
      subtracted := subtracted + [a[s + i]];
      i := i + 1;
    }
    assert false;
  }

  // The division identity.

  /** Appending a digit e to a raises a's contribution by one degree. */
  lemma {:induction false} ConvCoefAppend(a: seq<Element>, e: Element, b: seq<Element>, j: int)
    ensures ConvCoef(a + [e], b, j) == ConvCoef(a, b, j - 1) + e.value * Coef(b, j)
    decreases |a|
  {
    if a == [] {
      assert [] + [e] == [e];
      assert [e][1..] == [];
    } else {
      assert (a + [e])[1..] == a[1..] + [e];
      ConvCoefAppend(a[1..], e, b, j);
    }
  }

  /** Leading zeros add nothing to a convolution. */
  lemma {:induction false} ConvCoefStrip(a: seq<Element>, b: seq<Element>, k: int)
    ensures ConvCoef(Strip(a), b, k) == ConvCoef(a, b, k)
  {
    if |a| > 1 && a[0].value == 0 {
      ConvCoefStrip(a[1..], b, k);
    }
  }

  /** A zero leading entry can be dropped. */
  lemma DropZeroLead(d: seq<Element>, j: int)
    requires |d| >= 1 && d[0].value == 0
    ensures Coef(d[1..], j) == Coef(d, j)
  {
    CoefSplit(d, j);
  }

  /** Before the loop: no digits, the window is the top |b| coefficients. */
  lemma InitialSplit(p: int, c: seq<Element>, b: seq<Element>, s: int)
    requires p >= 2 && AllElements(p, c) && 0 <= s <= |c|
    ensures Splits(p, c, [], b, c[..s], c[s..], |c| - s + 1)
  {
    forall k {:trigger Coef(c, k)} ensures Coef(c, k) == Mod(ConvCoef([], b, k - (|c| - s + 1)) + Coef(c[..s], k - |c[s..]|) + Coef(c[s..], k), p) {
      assert c == c[..s] + c[s..];
      CoefConcat(c[..s], c[s..], k);
      CoefRange(p, c, k);
    }
  }

  /** Subtracting e * b, where e * lead(b) is the window's lead, keeps the
      state and zeroes the window's leading entry. */
  lemma SubtractStep(p: int, c: seq<Element>, qs: seq<Element>, b: seq<Element>, w: seq<Element>,
                     tail: seq<Element>, e: Element, scaled: seq<Element>, d: seq<Element>)
    requires p >= 2 && |w| == |b| >= 1
    requires Splits(p, c, qs, b, w, tail, |tail| + 1)
    requires Solves(p, e.value, w[0], b[0])
    requires IsScaled(p, e, b, scaled) && |d| == |w| && IsDifference(p, w, scaled, d)
    ensures Splits(p, c, qs + [e], b, d, tail, |tail|)
    ensures d[0].value == 0
  {
    forall k {:trigger Coef(c, k)} ensures Coef(c, k) == Mod(ConvCoef(qs + [e], b, k - |tail|) + Coef(d, k - |tail|) + Coef(tail, k), p) {
      var j := k - |tail|;
      ConvCoefAppend(qs, e, b, j);
      assert k - (|tail| + 1) == j - 1;
      ModCancelScaled(p, ConvCoef(qs, b, j - 1), e.value * Coef(b, j), Coef(w, j), Coef(tail, k));
    }
    var n := |b| - 1;
    assert Coef(b, n) == b[0].value && Coef(w, n) == w[0].value && Coef(d, n) == d[0].value;
    assert Coef(scaled, n) == w[0].value;
    assert Coef(d, n) == Mod(0, p);
  }

  /** Bringing down the next dividend coefficient into the window keeps the state. */
  lemma BringDown(p: int, c: seq<Element>, qs: seq<Element>, b: seq<Element>, d: seq<Element>, tail: seq<Element>)
    requires p >= 2 && |d| >= 1 && d[0].value == 0 && |tail| >= 1
    requires Splits(p, c, qs, b, d, tail, |tail|)
    ensures Splits(p, c, qs, b, d[1..] + [tail[0]], tail[1..], |tail|)
  {
    var w := d[1..] + [tail[0]];
    forall k {:trigger Coef(c, k)} ensures Coef(c, k) == Mod(ConvCoef(qs, b, k - |tail|) + Coef(w, k - |tail[1..]|) + Coef(tail[1..], k), p) {
      var j := k - |tail|;
      assert k - |tail[1..]| == j + 1;
      CoefConcat(d[1..], [tail[0]], j + 1);
      DropZeroLead(d, j);
      CoefSplit(tail, k);
      assert Coef(w, j + 1) + Coef(tail[1..], k) == Coef(d, j) + Coef(tail, k);
    }
  }

  lemma AllElementsAppend(p: int, x: seq<Element>, e: Element)
    requires AllElements(p, x) && IsElement(p, e)
    ensures AllElements(p, x + [e])
  {
    forall k | 0 <= k < |x| + 1 ensures 0 <= Coef(x + [e], k) < p {
      CoefConcat(x, [e], k);
    }
  }

  lemma AllElementsTail(p: int, d: seq<Element>)
    requires |d| >= 1 && AllElements(p, d)
    ensures AllElements(p, d[1..])
  {
    forall k | 0 <= k < |d| - 1 ensures 0 <= Coef(d[1..], k) < p {
      CoefSplit(d, k);
    }
  }

  /** What a returned division satisfies: the identity, elements throughout,
      and for a divisor of length 1 the remainder `[0]`. */
  ghost predicate SoundDivision(p: int, c: seq<Element>, b: seq<Element>, D: Division)
    requires p >= 2
  {
    IsDivision(p, c, b, D) && AllElements(p, D.quotient) && AllElements(p, D.remainder) &&
    (|b| == 1 ==> D.remainder == [Zero])
  }

  /** From a loop state onwards, whatever the loop returns is a sound division. */
  lemma {:induction false} DivLoopIdentity(p: int, c: seq<Element>, b: seq<Element>, i: nat, w: seq<Element>, qs: seq<Element>,
                                           D: Division)
    requires p >= 2 && 1 <= |b| && |b| + i <= |c| && |w| >= 1
    requires AllElements(p, qs)
    requires Splits(p, c, qs, b, w, c[|b| + i..], |c| - |b| - i + 1)
    requires DivLoop(p, c, b, i, w, qs) == Ok(D)
    ensures SoundDivision(p, c, b, D)
    decreases |c| - |b| - i
  {
    if Quotient(p, w[0], b[0]).Some? && |w| == |b| && |b| + i < |c| && |b| >= 2 {
      var i', w', qs' := DivLoopAdvances(p, c, b, i, w, qs);
      DivLoopIdentity(p, c, b, i', w', qs', D);
    } else {
      DivLoopStops(p, c, b, i, w, qs);
    }
  }

  /** A pass that is not the last hands the loop a new window and one more
      digit, and the identity holds for them. */
  lemma DivLoopAdvances(p: int, c: seq<Element>, b: seq<Element>, i: nat, w: seq<Element>, qs: seq<Element>)
      returns (i': nat, w': seq<Element>, qs': seq<Element>)
    requires p >= 2 && 2 <= |b| && |b| + i < |c| && |w| == |b|
    requires AllElements(p, qs)
    requires Splits(p, c, qs, b, w, c[|b| + i..], |c| - |b| - i + 1)
    requires Quotient(p, w[0], b[0]).Some?
    ensures i' == i + 1 && |b| + i' <= |c|
    ensures |w'| == |b| && AllElements(p, qs')
    ensures Splits(p, c, qs', b, w', c[|b| + i'..], |c| - |b| - i' + 1)
    ensures DivLoop(p, c, b, i, w, qs) == DivLoop(p, c, b, i', w', qs')
  {
    var e := Quotient(p, w[0], b[0]).value;
    var sc := ScaleBy(p, b, e);
    var d := SubtractElementwise(p, w, sc);
    i', w', qs' := i + 1, d[1..] + [c[|b| + i]], qs + [e];
    NextStep(p, c, b, i, w, qs, e, sc, d);
    AllElementsAppend(p, qs, e);
  }

  /** A pass that does not bring down another coefficient either fails or,
      being the last, returns a sound division. */
  lemma DivLoopStops(p: int, c: seq<Element>, b: seq<Element>, i: nat, w: seq<Element>, qs: seq<Element>)
    requires p >= 2 && 1 <= |b| && |b| + i <= |c| && |w| >= 1
    requires AllElements(p, qs)
    requires Splits(p, c, qs, b, w, c[|b| + i..], |c| - |b| - i + 1)
    requires !(Quotient(p, w[0], b[0]).Some? && |w| == |b| && |b| + i < |c| && |b| >= 2)
    ensures DivLoop(p, c, b, i, w, qs).Ok? ==> SoundDivision(p, c, b, DivLoop(p, c, b, i, w, qs).value)
    ensures Quotient(p, w[0], b[0]).Some? && |w| == |b| && |b| + i == |c| <==> DivLoop(p, c, b, i, w, qs).Ok?
  {
    var q := Quotient(p, w[0], b[0]);
    if q.Some? && |w| == |b| && |b| + i == |c| {
      var sc := ScaleBy(p, b, q.value);
      FinalStep(p, c, b, i, w, qs, q.value, sc, SubtractElementwise(p, w, sc));
    }
  }

  /** A pass that brings down the next dividend coefficient keeps the state. */
  lemma NextStep(p: int, c: seq<Element>, b: seq<Element>, i: nat, w: seq<Element>, qs: seq<Element>,
                 e: Element, sc: seq<Element>, d: seq<Element>)
    requires p >= 2 && 2 <= |b| && |b| + i < |c| && |w| == |b|
    requires Splits(p, c, qs, b, w, c[|b| + i..], |c| - |b| - i + 1)
    requires Quotient(p, w[0], b[0]) == Some(e)
    requires IsScaled(p, e, b, sc) && |d| == |w| && IsDifference(p, w, sc, d)
    ensures Splits(p, c, qs + [e], b, d[1..] + [c[|b| + i]], c[|b| + (i + 1)..], |c| - |b| - (i + 1) + 1)
  {
    var tail := c[|b| + i..];
    SubtractStep(p, c, qs, b, w, tail, e, sc, d);
    BringDown(p, c, qs + [e], b, d, tail);
    assert tail[0] == c[|b| + i] && tail[1..] == c[|b| + (i + 1)..];
  }

  /** The last pass yields a sound division. */
  lemma FinalStep(p: int, c: seq<Element>, b: seq<Element>, i: nat, w: seq<Element>, qs: seq<Element>,
                  e: Element, sc: seq<Element>, d: seq<Element>)
    requires p >= 2 && 1 <= |b| && |b| + i == |c| && |w| == |b|
    requires AllElements(p, qs)
    requires Splits(p, c, qs, b, w, c[|b| + i..], |c| - |b| - i + 1)
    requires Quotient(p, w[0], b[0]) == Some(e)
    requires IsScaled(p, e, b, sc) && |d| == |w| && IsDifference(p, w, sc, d)
    ensures SoundDivision(p, c, b, Division(qs + [e], if |b| >= 2 then d[1..] else d))
  {
    var tail := c[|b| + i..];
    SubtractStep(p, c, qs, b, w, tail, e, sc, d);
    AllElementsAppend(p, qs, e);
    assert tail == [] && AllElements(p, d);
    LastStep(p, c, qs + [e], b, d, tail);
  }

  /** The final pass: nothing is left to bring down, and the window after
      `subtracted[-s+1:]` is the remainder. */
  lemma LastStep(p: int, c: seq<Element>, qs: seq<Element>, b: seq<Element>, d: seq<Element>, tail: seq<Element>)
    requires p >= 2 && |d| == |b| >= 1 && d[0].value == 0
    requires AllElements(p, qs) && AllElements(p, d)
    requires tail == [] && Splits(p, c, qs, b, d, tail, |tail|)
    ensures SoundDivision(p, c, b, Division(qs, if |b| >= 2 then d[1..] else d))
  {
    LastIdentity(p, c, qs, b, d, tail);
    if |b| >= 2 {
      AllElementsTail(p, d);
    } else {
      assert d == [Zero];
    }
  }

  lemma LastIdentity(p: int, c: seq<Element>, qs: seq<Element>, b: seq<Element>, d: seq<Element>, tail: seq<Element>)
    requires p >= 2 && |d| == |b| >= 1 && d[0].value == 0
    requires tail == [] && Splits(p, c, qs, b, d, tail, |tail|)
    ensures IsDivision(p, c, b, Division(qs, if |b| >= 2 then d[1..] else d))
  {
    if |b| >= 2 {
      DropLeadIdentity(p, c, qs, b, d, tail);
    } else {
      KeepLeadIdentity(p, c, qs, b, d, tail);
    }
  }

  lemma DropLeadIdentity(p: int, c: seq<Element>, qs: seq<Element>, b: seq<Element>, d: seq<Element>, tail: seq<Element>)
    requires p >= 2 && |d| >= 1 && d[0].value == 0
    requires tail == [] && Splits(p, c, qs, b, d, tail, |tail|)
    ensures IsDivision(p, c, b, Division(qs, d[1..]))
  {
    forall k {:trigger Coef(c, k)} ensures Coef(c, k) == Mod(ConvCoef(qs, b, k) + Coef(d[1..], k), p) {
      assert Coef(tail, k) == 0;
      DropZeroLead(d, k);
    }
  }

  lemma KeepLeadIdentity(p: int, c: seq<Element>, qs: seq<Element>, b: seq<Element>, d: seq<Element>, tail: seq<Element>)
    requires p >= 2
    requires tail == [] && Splits(p, c, qs, b, d, tail, |tail|)
    ensures IsDivision(p, c, b, Division(qs, d))
  {
    forall k {:trigger Coef(c, k)} ensures Coef(c, k) == Mod(ConvCoef(qs, b, k) + Coef(d, k), p) {
      assert Coef(tail, k) == 0;
    }
  }

  /** Whenever `_divide_with_remainder(P, Q)` returns, P == quotient * Q + remainder. */
  lemma DivisionIdentity(p: int, P: Polynomial, Q: Polynomial)
    requires p >= 2 && Valid(p, P) && Valid(p, Q)
    ensures DivRem(p, P, Q).Ok? ==> IsDivision(p, P.coeffs, Q.coeffs, DivRem(p, P, Q).value)
    ensures DivRem(p, P, Q).Ok? ==>
      AllElements(p, DivRem(p, P, Q).value.quotient) && AllElements(p, DivRem(p, P, Q).value.remainder)
    ensures DivRem(p, P, Q).Ok? && |Q.coeffs| == 1 <= |P.coeffs| ==> DivRem(p, P, Q).value.remainder == [Zero]
  {
    var a, b := P.coeffs, Q.coeffs;
    if |b| > |a| {
      forall k ensures Coef(a, k) == Mod(ConvCoef(ZeroPoly.coeffs, b, k) + Coef(a, k), p) {
        CoefRange(p, a, k);
        assert ConvCoef([Zero], b, k) == 0;
      }
      assert AllElements(p, ZeroPoly.coeffs) by {
        assert Coef(ZeroPoly.coeffs, 0) == 0;
      }
    } else {
      InitialSplit(p, a, b, |b|);
      if DivRem(p, P, Q).Ok? {
        DivLoopIdentity(p, a, b, 0, a[..|b|], [], DivRem(p, P, Q).value);
      }
    }
  }

  // When the division returns.

  /** With an invertible leading coefficient in Q every digit exists, and the
      division returns unless a constant divides a longer polynomial. */
  lemma DivRemSucceeds(p: int, P: Polynomial, Q: Polynomial)
    requires p >= 2 && Valid(p, P) && Valid(p, Q) && IsUnit(p, Lead(Q))
    ensures DivRem(p, P, Q).Ok? <==> (|Q.coeffs| >= 2 || |P.coeffs| == 1)
  {
    var a, b := P.coeffs, Q.coeffs;
    if |b| <= |a| && (|b| >= 2 || |a| == 1) {
      assert AllElements(p, a[..|b|]) by {
        forall k | 0 <= k < |b| ensures 0 <= Coef(a[..|b|], k) < p {
          CoefSlice(a, 0, |b|, k);
        }
      }
      DivLoopSucceeds(p, a, b, 0, a[..|b|], []);
    }
  }

  lemma {:induction false} DivLoopSucceeds(p: int, c: seq<Element>, b: seq<Element>, i: nat, w: seq<Element>, qs: seq<Element>)
    requires p >= 2 && 1 <= |b| && |b| + i <= |c| && |w| == |b|
    requires AllElements(p, c) && AllElements(p, w) && IsUnit(p, b[0])
    requires |b| >= 2 || |b| + i == |c|
    ensures DivLoop(p, c, b, i, w, qs).Ok?
    decreases |c| - |b| - i
  {
    ElementAt(p, w, 0);
    QuotientTimesDivisor(p, w[0], b[0]);
    if |b| + i < |c| {
      var e := Quotient(p, w[0], b[0]).value;
      var d := SubtractElementwise(p, w, ScaleBy(p, b, e));
      assert AllElements(p, d);
      AllElementsTail(p, d);
      ElementAt(p, c, |b| + i);
      AllElementsAppend(p, d[1..], c[|b| + i]);
      DivLoopSucceeds(p, c, b, i + 1, d[1..] + [c[|b| + i]], qs + [e]);
    }
  }

  /** Over a prime field every non-zero divisor has an invertible leading coefficient. */
  lemma PrimeDivRemSucceeds(p: int, P: Polynomial, Q: Polynomial)
    requires Prime(p) && Valid(p, P) && Valid(p, Q) && Q != ZeroPoly
    ensures IsUnit(p, Lead(Q))
    ensures DivRem(p, P, Q).Ok? <==> (|Q.coeffs| >= 2 || |P.coeffs| == 1)
  {
    if Lead(Q).value == 0 {
      assert false;
    }
    ElementAt(p, Q.coeffs, 0);
    PrimeUnits(p, Lead(Q));
    DivRemSucceeds(p, P, Q);
  }

  // The operators.

  /** `P / Q` (`__truediv__`): the quotient digits, rebuilt as a polynomial. */
  function TrueDiv(p: int, P: Polynomial, Q: Polynomial): (r: Result<Polynomial>)
    requires p >= 2 && Valid(p, P) && Valid(p, Q)
    ensures r.Ok? <==> DivRem(p, P, Q).Ok?
    ensures r.Ok? ==> Valid(p, r.value)
    ensures r.Ok? && |Q.coeffs| <= |P.coeffs| ==> |r.value.coeffs| <= |P.coeffs| - |Q.coeffs| + 1
    ensures r.Ok? && |Q.coeffs| > |P.coeffs| ==> r.value == ZeroPoly
  {
    match DivRem(p, P, Q)
    case Ok(D) =>
      assert AllElements(p, ZeroPoly.coeffs) by {
        assert Coef(ZeroPoly.coeffs, 0) == 0;
      }
      Ok(ElementsToPolynomial(p, D.quotient))
    case Failure(e) => Failure(e)
  }

  /** `P % Q` (`__mod__`): `ZeroDivisionError` for the zero divisor, otherwise
      the remainder window, rebuilt as a polynomial. */
  function ModPoly(p: int, P: Polynomial, Q: Polynomial): (r: Result<Polynomial>)
    requires p >= 2 && Valid(p, P) && Valid(p, Q)
    ensures Q == ZeroPoly ==> r == Failure(ZeroDivisor)
    ensures Q != ZeroPoly ==> (r.Ok? <==> DivRem(p, P, Q).Ok?)
    ensures r.Ok? ==> Valid(p, r.value)
    ensures |Q.coeffs| > |P.coeffs| ==> r == Ok(P)
  {
    if Equal(Q, ZeroPoly) then Failure(ZeroDivisor)
    else match DivRem(p, P, Q)
      case Ok(D) =>
        StripNormal(P.coeffs);
        Ok(ElementsToPolynomial(p, D.remainder))
      case Failure(e) => Failure(e)
  }

  /** `(P / Q) * Q + P % Q == P`, with the remainder zero or shorter than Q. */
  lemma DivisionTheorem(p: int, P: Polynomial, Q: Polynomial)
    requires p >= 2 && Valid(p, P) && Valid(p, Q) && ModPoly(p, P, Q).Ok?
    ensures TrueDiv(p, P, Q).Ok?
    ensures Polynomials.Add(p, Product(p, TrueDiv(p, P, Q).value, Q), ModPoly(p, P, Q).value) == P
    ensures ModPoly(p, P, Q).value == ZeroPoly || |ModPoly(p, P, Q).value.coeffs| < |Q.coeffs|
  {
    var D := DivRem(p, P, Q).value;
    DivisionIdentity(p, P, Q);
    var T, R := TrueDiv(p, P, Q).value, ModPoly(p, P, Q).value;
    assert T == Polynomial(Strip(D.quotient)) && R == Polynomial(Strip(D.remainder));
    var M := Product(p, T, Q);
    var S := Polynomials.Add(p, M, R);
    forall k ensures Coef(S.coeffs, k) == Coef(P.coeffs, k) {
      DivisionTheoremAt(p, P.coeffs, Q.coeffs, D, M.coeffs, R.coeffs, S.coeffs, k);
    }
    CanonicalByCoef(S.coeffs, P.coeffs);
    if |Q.coeffs| == 1 <= |P.coeffs| {
      assert Strip(D.remainder) == [Zero];
    }
  }

  lemma DivisionTheoremAt(p: int, a: seq<Element>, b: seq<Element>, D: Division,
                          m: seq<Element>, r: seq<Element>, s: seq<Element>, k: int)
    requires p >= 2 && IsDivision(p, a, b, D)
    requires IsProduct(p, Strip(D.quotient), b, m)
    requires forall j {:trigger Coef(r, j)} :: Coef(r, j) == Coef(D.remainder, j)
    requires IsSum(p, m, r, s)
    ensures Coef(s, k) == Coef(a, k)
  {
    var x := ConvCoef(D.quotient, b, k);
    ConvCoefStrip(D.quotient, b, k);
    assert Coef(m, k) == Mod(x, p);
    AddCong(p, Coef(m, k), Coef(r, k), x, Coef(D.remainder, k));
  }
}
