/** The quotient ring GF(p)[x]/(m) (class `PolynomialOnRing` of
    galois/polynomial.py). Each operator computes the plain polynomial
    result, reduces it with `% modulus_polynomial` and rebuilds a ring
    polynomial from its integer list. The modulus polynomial m, a module
    global in the source, is a parameter here. Construction is the plain
    constructor (`Polynomials.FromInts`): it does not reduce. */
module QuotientRing {
  import opened Field
  import opened Polynomials
  import opened PolynomialDivision

  /** A modulus for which every reduction returns: normalised, of degree at
      least one, with an invertible leading coefficient. */
  predicate RingModulus(p: int, m: Polynomial)
    requires p >= 2
  {
    Valid(p, m) && |m.coeffs| >= 2 && IsUnit(p, Lead(m))
  }

  /** `PolynomialOnRing(x.tolist())`: rebuilding from the integer list
      gives the same polynomial back. */
  function Rebuild(p: int, r: Result<Polynomial>): (s: Result<Polynomial>)
    requires p >= 2 && (r.Ok? ==> Valid(p, r.value))
    ensures s == r
  {
    match r
    case Ok(R) => FromToList(p, R); Ok(FromInts(p, ToList(R)))
    case Failure(e) => Failure(e)
  }

  /** `X % modulus_polynomial` for a ring modulus always returns, with a
      result shorter than m; a polynomial already shorter is unchanged. */
  lemma ReduceBound(p: int, m: Polynomial, X: Polynomial)
    requires p >= 2 && RingModulus(p, m) && Valid(p, X)
    ensures ModPoly(p, X, m).Ok?
    ensures |ModPoly(p, X, m).value.coeffs| < |m.coeffs|
    ensures |X.coeffs| < |m.coeffs| ==> ModPoly(p, X, m) == Ok(X)
  {
    DivRemSucceeds(p, X, m);
    DivisionTheorem(p, X, m);
  }

  /** The ring's `+`: the sum reduced mod m. */
  function RingAdd(p: int, m: Polynomial, P: Polynomial, Q: Polynomial): (r: Result<Polynomial>)
    requires p >= 2 && Valid(p, m) && Valid(p, P) && Valid(p, Q)
    ensures r == ModPoly(p, Polynomials.Add(p, P, Q), m)
    ensures RingModulus(p, m) ==> r.Ok? && |r.value.coeffs| < |m.coeffs|
  {
    var S := Polynomials.Add(p, P, Q);
    if RingModulus(p, m) then
      ReduceBound(p, m, S);
      Rebuild(p, ModPoly(p, S, m))
    else Rebuild(p, ModPoly(p, S, m))
  }

  /** The ring's `%`: the plain remainder, reduced mod m once more. */
  function RingMod(p: int, m: Polynomial, P: Polynomial, Q: Polynomial): (r: Result<Polynomial>)
    requires p >= 2 && Valid(p, m) && Valid(p, P) && Valid(p, Q)
    ensures Q == ZeroPoly ==> r == Failure(ZeroDivisor)
    ensures ModPoly(p, P, Q).Failure? ==> r == ModPoly(p, P, Q)
    ensures ModPoly(p, P, Q).Ok? ==> r == ModPoly(p, ModPoly(p, P, Q).value, m)
    ensures RingModulus(p, m) && ModPoly(p, P, Q).Ok? ==> r.Ok? && |r.value.coeffs| < |m.coeffs|
  {
    match ModPoly(p, P, Q)
    case Failure(e) => Failure(e)
    case Ok(R) =>
      if RingModulus(p, m) then
        ReduceBound(p, m, R);
        Rebuild(p, ModPoly(p, R, m))
      else Rebuild(p, ModPoly(p, R, m))
  }

  /** The ring's `-`. `super().__sub__` is `self + polynomial.complement()`,
      which dispatches to the ring's `+`; the `%` that follows is the ring's
      `%` again, so the difference is reduced three times. For a ring modulus
      this is the plain difference reduced once. */
  function RingSub(p: int, m: Polynomial, P: Polynomial, Q: Polynomial): (r: Result<Polynomial>)
    requires p >= 2 && Valid(p, m) && Valid(p, P) && Valid(p, Q)
    ensures m == ZeroPoly ==> r == Failure(ZeroDivisor)
    ensures RingModulus(p, m) ==> r == ModPoly(p, Polynomials.Sub(p, P, Q), m)
    ensures RingModulus(p, m) ==> r.Ok? && |r.value.coeffs| < |m.coeffs|
  {
    match RingAdd(p, m, P, Polynomials.Complement(p, Q))
    case Failure(e) => Failure(e)
    case Ok(X) =>
      if RingModulus(p, m) then
        ReduceBound(p, m, X);
        Rebuild(p, RingMod(p, m, X, m))
      else Rebuild(p, RingMod(p, m, X, m))
  }

  /** The ring's `*`: the product reduced mod m. */
  function RingMul(p: int, m: Polynomial, P: Polynomial, Q: Polynomial): (r: Result<Polynomial>)
    requires p >= 2 && Valid(p, m) && Valid(p, P) && Valid(p, Q)
    ensures r == ModPoly(p, Product(p, P, Q), m)
    ensures RingModulus(p, m) ==> r.Ok? && |r.value.coeffs| < |m.coeffs|
  {
    var M := Product(p, P, Q);
    if RingModulus(p, m) then
      ReduceBound(p, m, M);
      Rebuild(p, ModPoly(p, M, m))
    else Rebuild(p, ModPoly(p, M, m))
  }

  /** The ring's `/`: the plain quotient reduced mod m. */
  function RingDiv(p: int, m: Polynomial, P: Polynomial, Q: Polynomial): (r: Result<Polynomial>)
    requires p >= 2 && Valid(p, m) && Valid(p, P) && Valid(p, Q)
    ensures TrueDiv(p, P, Q).Failure? ==> r == TrueDiv(p, P, Q)
    ensures TrueDiv(p, P, Q).Ok? ==> r == ModPoly(p, TrueDiv(p, P, Q).value, m)
    ensures RingModulus(p, m) && TrueDiv(p, P, Q).Ok? ==> r.Ok? && |r.value.coeffs| < |m.coeffs|
  {
    match TrueDiv(p, P, Q)
    case Failure(e) => Failure(e)
    case Ok(T) =>
      if RingModulus(p, m) then
        ReduceBound(p, m, T);
        Rebuild(p, ModPoly(p, T, m))
      else Rebuild(p, ModPoly(p, T, m))
  }

  /** Ring addition commutes. */
  lemma RingAddCommutes(p: int, m: Polynomial, P: Polynomial, Q: Polynomial)
    requires p >= 2 && Valid(p, m) && Valid(p, P) && Valid(p, Q)
    ensures RingAdd(p, m, P, Q) == RingAdd(p, m, Q, P)
  {
    Polynomials.AddCommutes(p, P, Q);
  }

  /** Ring multiplication commutes. */
  lemma RingMulCommutes(p: int, m: Polynomial, P: Polynomial, Q: Polynomial)
    requires p >= 2 && Valid(p, m) && Valid(p, P) && Valid(p, Q)
    ensures RingMul(p, m, P, Q) == RingMul(p, m, Q, P)
  {
    Polynomials.ProductCommutes(p, P, Q);
  }

  /** Reducing twice is reducing once. */
  lemma ReduceIdempotent(p: int, m: Polynomial, X: Polynomial)
    requires p >= 2 && RingModulus(p, m) && Valid(p, X)
    ensures ModPoly(p, X, m).Ok? && ModPoly(p, ModPoly(p, X, m).value, m) == ModPoly(p, X, m)
  {
    ReduceBound(p, m, X);
    ReduceBound(p, m, ModPoly(p, X, m).value);
  }
}
