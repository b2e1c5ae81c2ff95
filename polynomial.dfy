/** Polynomials over GF(p) (class `Polynomial` of galois/polynomial.py):
    coefficient lists, most-significant coefficient first, normalised so
    that no leading coefficient is zero except in the zero polynomial `[0]`.

    The proofs read a coefficient list through `Coef(c, k)`, the coefficient
    of x^k; two normalised lists with the same coefficients are equal
    (`CanonicalByCoef`), which is how every algebraic law below is shown.
    The coefficient-wise meaning of each operation is a predicate
    (`IsSum`, `IsNegation`, `IsDifference`, `IsScaled`, `IsProduct`), so
    that the laws are proved once on plain lists. */
module Polynomials {
  import opened ModArith
  import opened Wrappers
  import opened Field

  datatype Polynomial = Polynomial(coeffs: seq<Element>)

  const ZeroPoly := Polynomial([Zero])

  /** The coefficient of x^k; zero outside the stored list. */
  function Coef(c: seq<Element>, k: int): int {
    if 0 <= k < |c| then c[|c| - 1 - k].value else 0
  }

  /** Every stored coefficient is an element of GF(p). */
  predicate AllElements(p: int, c: seq<Element>) {
    forall k {:trigger Coef(c, k)} :: 0 <= k < |c| ==> 0 <= Coef(c, k) < p
  }

  /** No leading zero, except that the zero polynomial is `[0]`. */
  predicate IsNormal(c: seq<Element>) {
    |c| >= 1 && (|c| == 1 || c[0].value != 0)
  }

  /** What every constructed `Polynomial` satisfies. */
  predicate Valid(p: int, P: Polynomial) {
    IsNormal(P.coeffs) && AllElements(p, P.coeffs)
  }

  function Lead(P: Polynomial): Element
    requires |P.coeffs| >= 1
  {
    P.coeffs[0]
  }

  // The coefficient-wise meaning of the operations.

  ghost predicate IsSum(p: int, a: seq<Element>, b: seq<Element>, s: seq<Element>)
    requires p >= 2
  {
    forall k {:trigger Coef(s, k)} :: Coef(s, k) == Mod(Coef(a, k) + Coef(b, k), p)
  }

  ghost predicate IsNegation(p: int, a: seq<Element>, s: seq<Element>)
    requires p >= 2
  {
    forall k {:trigger Coef(s, k)} :: Coef(s, k) == Mod(-Coef(a, k), p)
  }

  ghost predicate IsDifference(p: int, a: seq<Element>, b: seq<Element>, s: seq<Element>)
    requires p >= 2
  {
    forall k {:trigger Coef(s, k)} :: Coef(s, k) == Mod(Coef(a, k) - Coef(b, k), p)
  }

  ghost predicate IsScaled(p: int, e: Element, a: seq<Element>, s: seq<Element>)
    requires p >= 2
  {
    forall k {:trigger Coef(s, k)} :: Coef(s, k) == Mod(e.value * Coef(a, k), p)
  }

  ghost predicate IsProduct(p: int, a: seq<Element>, b: seq<Element>, s: seq<Element>)
    requires p >= 2
  {
    forall k {:trigger Coef(s, k)} :: Coef(s, k) == Mod(ConvCoef(a, b, k), p)
  }

  // Reading lists through their coefficients.

  lemma CoefConcat(a: seq<Element>, b: seq<Element>, k: int)
    ensures Coef(a + b, k) == if k < |b| then Coef(b, k) else Coef(a, k - |b|)
  {
  }

  /** The coefficients of a list with one more leading entry. */
  lemma CoefCons(x: Element, c: seq<Element>, k: int)
    ensures Coef([x] + c, k) == if k == |c| then x.value else Coef(c, k)
  {
    CoefConcat([x], c, k);
  }

  /** A non-empty list is its leading entry followed by the rest. */
  lemma CoefSplit(c: seq<Element>, k: int)
    requires |c| >= 1
    ensures Coef(c, k) == if k == |c| - 1 then c[0].value else Coef(c[1..], k)
  {
    assert c == [c[0]] + c[1..];
    CoefCons(c[0], c[1..], k);
  }

  /** The coefficients of a window `c[lo..hi]`: those of degrees |c| - hi and up. */
  lemma CoefSlice(c: seq<Element>, lo: int, hi: int, j: int)
    requires 0 <= lo <= hi <= |c|
    ensures Coef(c[lo..hi], j) == if 0 <= j < hi - lo then Coef(c, j + |c| - hi) else 0
  {
  }

  lemma CoefRange(p: int, c: seq<Element>, k: int)
    requires AllElements(p, c) && p >= 2
    ensures 0 <= Coef(c, k) < p
  {
  }

  /** The entry at index i is an element: it is the coefficient of x^(|c|-1-i). */
  lemma ElementAt(p: int, c: seq<Element>, i: int)
    requires AllElements(p, c) && 0 <= i < |c|
    ensures IsElement(p, c[i])
  {
    assert Coef(c, |c| - 1 - i) == c[i].value;
  }

  /** Two lists of one length with the same coefficients are equal. */
  lemma EqualByCoef(a: seq<Element>, b: seq<Element>)
    requires |a| == |b|
    requires forall k :: Coef(a, k) == Coef(b, k)
    ensures a == b
  {
    forall i | 0 <= i < |a|
      ensures a[i] == b[i]
    {
      assert Coef(a, |a| - 1 - i) == Coef(b, |b| - 1 - i);
    }
  }

  /** A normalised list is determined by its coefficients. */
  lemma CanonicalByCoef(a: seq<Element>, b: seq<Element>)
    requires IsNormal(a) && IsNormal(b)
    requires forall k :: Coef(a, k) == Coef(b, k)
    ensures a == b
  {
    LengthByCoef(a, b);
    LengthByCoef(b, a);
    EqualByCoef(a, b);
  }

  lemma LengthByCoef(a: seq<Element>, b: seq<Element>)
    requires IsNormal(a) && IsNormal(b)
    requires forall k :: Coef(a, k) == Coef(b, k)
    ensures |a| <= |b|
  {
    if |a| >= 2 {
      assert Coef(a, |a| - 1) == a[0].value != 0;
      assert Coef(b, |a| - 1) != 0;
    }
  }

  // Normalisation: `_remove_trailing_zeros`, which strips the most-significant zeros.

  /** The normal form of a coefficient list: leading zeros removed, one coefficient kept. */
  function Strip(c: seq<Element>): (r: seq<Element>)
    ensures |c| >= 1 ==> IsNormal(r)
    ensures |r| <= |c|
    ensures forall k {:trigger Coef(r, k)} :: Coef(r, k) == Coef(c, k)
  {
    if |c| <= 1 then c
    else if c[0].value != 0 then c
    else
      var r := Strip(c[1..]);
      assert forall k {:trigger Coef(c[1..], k)} :: Coef(c[1..], k) == Coef(c, k) by {
        forall k ensures Coef(c[1..], k) == Coef(c, k) {
          CoefSplit(c, k);
        }
      }
      r
  }

  /** What is stripped is a prefix: the normal form is a suffix of the list
      (the source returns `elements[n:]`). */
  lemma {:induction false} StripIsSuffix(c: seq<Element>)
    ensures Strip(c) == c[|c| - |Strip(c)|..]
  {
    if |c| > 1 && c[0].value == 0 {
      StripIsSuffix(c[1..]);
      assert c[1..][|c[1..]| - |Strip(c[1..])|..] == c[|c| - |Strip(c)|..];
    }
  }

  lemma StripElements(p: int, c: seq<Element>)
    requires AllElements(p, c)
    ensures AllElements(p, Strip(c))
  {
  }

  lemma StripNormal(c: seq<Element>)
    requires IsNormal(c)
    ensures Strip(c) == c
  {
  }

  /** `_remove_trailing_zeros`: an index loop that stops at the first non-zero
      coefficient or at the last one. */
  method RemoveTrailingZeros(c: seq<Element>) returns (r: seq<Element>)
    ensures r == Strip(c)
    ensures |c| >= 1 ==> IsNormal(r)
    ensures forall k {:trigger Coef(r, k)} :: Coef(r, k) == Coef(c, k)
  {
    var n := 0;
    var i := 0;
    while i < |c|
      invariant 0 <= i <= |c|
      invariant n == 0
      invariant Strip(c[i..]) == Strip(c)
    {
      if i == |c| - 1 {
        return [c[|c| - 1]];
      }
      if c[i].value != 0 {
        n := i;
        break;
      }
      assert c[i..][1..] == c[i + 1..];
      i := i + 1;
    }
    r := c[n..];
    assert n == 0 || i == n;
  }

  // Construction and the integer projection.

  /** `[Element(e) for e in xs]`. */
  function ElementsOf(p: int, xs: seq<int>): (c: seq<Element>)
    requires p >= 2
    ensures |c| == |xs|
    ensures forall k {:trigger Coef(c, k)} :: 0 <= k < |xs| ==> Coef(c, k) == Mod(xs[|xs| - 1 - k], p)
  {
    if xs == [] then [] else
    var x, rest := FromInt(p, xs[0]), ElementsOf(p, xs[1..]);
    forall k | 0 <= k < |xs|
      ensures Coef([x] + rest, k) == Mod(xs[|xs| - 1 - k], p)
    {
      CoefCons(x, rest, k);
    }
    [x] + rest
  }

  /** `Polynomial(xs)`: every integer reduced mod p, then normalised. */
  function FromInts(p: int, xs: seq<int>): (r: Polynomial)
    requires p >= 2 && |xs| >= 1
    ensures Valid(p, r) && |r.coeffs| <= |xs|
    ensures forall k {:trigger Coef(r.coeffs, k)} :: 0 <= k < |xs| ==> Coef(r.coeffs, k) == Mod(xs[|xs| - 1 - k], p)
    ensures forall k {:trigger Coef(r.coeffs, k)} :: (k < 0 || k >= |xs|) ==> Coef(r.coeffs, k) == 0
    ensures (forall i :: 0 <= i < |xs| ==> Mod(xs[i], p) == 0) <==> r == ZeroPoly
  {
    var c := ElementsOf(p, xs);
    FromIntsZero(p, xs, c);
    Polynomial(Strip(c))
  }

  lemma FromIntsZero(p: int, xs: seq<int>, c: seq<Element>)
    requires p >= 2 && |xs| >= 1 && c == ElementsOf(p, xs)
    ensures (forall i :: 0 <= i < |xs| ==> Mod(xs[i], p) == 0) <==> Strip(c) == ZeroPoly.coeffs
  {
    var r := Strip(c);
    if forall i :: 0 <= i < |xs| ==> Mod(xs[i], p) == 0 {
      forall k ensures Coef(r, k) == Coef(ZeroPoly.coeffs, k) {
        if 0 <= k < |xs| {
          assert Mod(xs[|xs| - 1 - k], p) == 0;
        }
      }
      CanonicalByCoef(r, ZeroPoly.coeffs);
    }
    if r == ZeroPoly.coeffs {
      forall i | 0 <= i < |xs|
        ensures Mod(xs[i], p) == 0
      {
        assert Coef(c, |xs| - 1 - i) == Coef(r, |xs| - 1 - i) == 0;
      }
    }
  }

  /** `tolist()`: the integer projection of the coefficients. */
  function ToList(P: Polynomial): (r: seq<int>)
    ensures |r| == |P.coeffs|
    ensures forall i :: 0 <= i < |r| ==> r[i] == P.coeffs[i].value
  {
    seq(|P.coeffs|, i requires 0 <= i < |P.coeffs| => P.coeffs[i].value)
  }

  /** Rebuilding a polynomial from its integer projection gives it back. */
  lemma FromToList(p: int, P: Polynomial)
    requires p >= 2 && Valid(p, P)
    ensures FromInts(p, ToList(P)) == P
  {
    var xs := ToList(P);
    var r := FromInts(p, xs);
    forall k ensures Coef(r.coeffs, k) == Coef(P.coeffs, k) {
      if 0 <= k < |xs| {
        assert Coef(P.coeffs, k) == xs[|xs| - 1 - k];
      }
    }
    CanonicalByCoef(r.coeffs, P.coeffs);
  }

  /** Construction keeps a list that is already reduced and normalised: it
      becomes the polynomial with exactly those coefficients. */
  lemma FromReducedInts(p: int, xs: seq<int>)
    requires p >= 2 && |xs| >= 1 && (|xs| == 1 || xs[0] != 0)
    requires forall i :: 0 <= i < |xs| ==> 0 <= xs[i] < p
    ensures FromInts(p, xs) == Polynomial(seq(|xs|, i requires 0 <= i < |xs| => Element(xs[i])))
    ensures ToList(FromInts(p, xs)) == xs
  {
    var P := Polynomial(seq(|xs|, i requires 0 <= i < |xs| => Element(xs[i])));
    assert AllElements(p, P.coeffs) by {
      forall k | 0 <= k < |xs| ensures 0 <= Coef(P.coeffs, k) < p {
        assert Coef(P.coeffs, k) == xs[|xs| - 1 - k];
      }
    }
    assert ToList(P) == xs;
    FromToList(p, P);
  }

  /** `_elements_to_polynomial`: the integer values of a list of elements,
      passed through the constructor again. */
  function ElementsToPolynomial(p: int, c: seq<Element>): (r: Polynomial)
    requires p >= 2 && |c| >= 1
    ensures Valid(p, r) && |r.coeffs| <= |c|
    ensures AllElements(p, c) ==> r == Polynomial(Strip(c))
  {
    if AllElements(p, c) then RebuildElements(p, c); FromInts(p, ToList(Polynomial(c)))
    else FromInts(p, ToList(Polynomial(c)))
  }

  /** Rebuilding a list of elements normalises it and changes nothing else. */
  lemma RebuildElements(p: int, c: seq<Element>)
    requires p >= 2 && |c| >= 1 && AllElements(p, c)
    ensures FromInts(p, ToList(Polynomial(c))) == Polynomial(Strip(c))
  {
    var r := FromInts(p, ToList(Polynomial(c)));
    forall k ensures Coef(r.coeffs, k) == Coef(c, k) {
      RebuildAt(p, c, k);
    }
    CanonicalByCoef(r.coeffs, Strip(c));
  }

  lemma RebuildAt(p: int, c: seq<Element>, k: int)
    requires p >= 2 && |c| >= 1 && AllElements(p, c)
    ensures Coef(FromInts(p, ToList(Polynomial(c))).coeffs, k) == Coef(c, k)
  {
    var xs := ToList(Polynomial(c));
    if 0 <= k < |xs| {
      var x := xs[|xs| - 1 - k];
      assert Coef(c, k) == x;
      CoefRange(p, c, k);
      assert Mod(x, p) == x;
    }
  }

  /** `__eq__`: integer projections agree exactly when the polynomials are equal. */
  function Equal(P: Polynomial, Q: Polynomial): (r: bool)
    ensures r <==> P == Q
  {
    var a, b := ToList(P), ToList(Q);
    if a == b then
      assert forall i :: 0 <= i < |a| ==> P.coeffs[i].value == a[i] == b[i] == Q.coeffs[i].value;
      assert P.coeffs == Q.coeffs;
      true
    else false
  }

  // The elementwise helpers.

  /** `_add_elementwise`: `[e1 + e2 for e1, e2 in zip(a, b)]`. */
  function AddElementwise(p: int, a: seq<Element>, b: seq<Element>): (r: seq<Element>)
    requires p >= 2 && |a| == |b|
    ensures |r| == |a| && IsSum(p, a, b, r)
  {
    if a == [] then [] else
    var x, rest := Field.Add(p, a[0], b[0]), AddElementwise(p, a[1..], b[1..]);
    forall k ensures Coef([x] + rest, k) == Mod(Coef(a, k) + Coef(b, k), p) {
      CoefCons(x, rest, k);
      CoefSplit(a, k);
      CoefSplit(b, k);
    }
    [x] + rest
  }

  /** `_subtract_elementwise`: `[e1 - e2 for e1, e2 in zip(a, b)]`. */
  function SubtractElementwise(p: int, a: seq<Element>, b: seq<Element>): (r: seq<Element>)
    requires p >= 2 && |a| == |b|
    ensures |r| == |a| && IsDifference(p, a, b, r)
  {
    if a == [] then [] else
    var x, rest := Field.Sub(p, a[0], b[0]), SubtractElementwise(p, a[1..], b[1..]);
    forall k ensures Coef([x] + rest, k) == Mod(Coef(a, k) - Coef(b, k), p) {
      CoefCons(x, rest, k);
      CoefSplit(a, k);
      CoefSplit(b, k);
    }
    [x] + rest
  }

  /** `_multiply_element_to_polynomial(c, e)`: `[e * x for x in c]`. */
  function ScaleBy(p: int, c: seq<Element>, e: Element): (r: seq<Element>)
    requires p >= 2
    ensures |r| == |c| && IsScaled(p, e, c, r)
  {
    if c == [] then [] else
    var x, rest := Field.Mul(p, e, c[0]), ScaleBy(p, c[1..], e);
    forall k ensures Coef([x] + rest, k) == Mod(e.value * Coef(c, k), p) {
      CoefCons(x, rest, k);
      CoefSplit(c, k);
    }
    [x] + rest
  }

  // Addition, complement, subtraction.

  /** The sum before normalisation: the shorter list is right-aligned under
      the longer one, the overlap is added elementwise and the longer
      operand's extra high-order coefficients are kept. */
  function Aligned(p: int, a: seq<Element>, b: seq<Element>): (r: seq<Element>)
    requires p >= 2 && AllElements(p, a) && AllElements(p, b)
    ensures |r| == if |a| < |b| then |b| else |a|
    ensures IsSum(p, a, b, r)
  {
    if |a| < |b| then
      forall k ensures Coef(b[..|b| - |a|] + AddElementwise(p, a, b[|b| - |a|..]), k) == Mod(Coef(a, k) + Coef(b, k), p) {
        ShorterFirstAt(p, a, b, AddElementwise(p, a, b[|b| - |a|..]), k);
      }
      b[..|b| - |a|] + AddElementwise(p, a, b[|b| - |a|..])
    else
      forall k ensures Coef(a[..|a| - |b|] + AddElementwise(p, a[|a| - |b|..], b), k) == Mod(Coef(a, k) + Coef(b, k), p) {
        LongerFirstAt(p, a, b, AddElementwise(p, a[|a| - |b|..], b), k);
      }
      a[..|a| - |b|] + AddElementwise(p, a[|a| - |b|..], b)
  }

  lemma ShorterFirstAt(p: int, a: seq<Element>, b: seq<Element>, s: seq<Element>, k: int)
    requires p >= 2 && AllElements(p, b) && |a| < |b|
    requires |s| == |a| && IsSum(p, a, b[|b| - |a|..], s)
    ensures Coef(b[..|b| - |a|] + s, k) == Mod(Coef(a, k) + Coef(b, k), p)
  {
    var hi, lo := b[..|b| - |a|], b[|b| - |a|..];
    assert b == hi + lo;
    CoefConcat(hi, lo, k);
    CoefConcat(hi, s, k);
    if k >= |a| {
      CoefRange(p, b, k);
    }
  }

  lemma LongerFirstAt(p: int, a: seq<Element>, b: seq<Element>, s: seq<Element>, k: int)
    requires p >= 2 && AllElements(p, a) && |a| >= |b|
    requires |s| == |b| && IsSum(p, a[|a| - |b|..], b, s)
    ensures Coef(a[..|a| - |b|] + s, k) == Mod(Coef(a, k) + Coef(b, k), p)
  {
    var hi, lo := a[..|a| - |b|], a[|a| - |b|..];
    assert a == hi + lo;
    CoefConcat(hi, lo, k);
    CoefConcat(hi, s, k);
    if k >= |b| {
      CoefRange(p, a, k);
    }
  }

  /** `__add__`: the aligned sum, normalised. */
  function Add(p: int, P: Polynomial, Q: Polynomial): (r: Polynomial)
    requires p >= 2 && Valid(p, P) && Valid(p, Q)
    ensures Valid(p, r)
    ensures |r.coeffs| <= if |P.coeffs| < |Q.coeffs| then |Q.coeffs| else |P.coeffs|
    ensures IsSum(p, P.coeffs, Q.coeffs, r.coeffs)
  {
    Polynomial(Strip(Aligned(p, P.coeffs, Q.coeffs)))
  }

  /** `[e.complement() for e in c]`. */
  function ComplementEach(p: int, c: seq<Element>): (r: seq<Element>)
    requires p >= 2
    ensures |r| == |c| && IsNegation(p, c, r)
  {
    if c == [] then [] else
    var x, rest := Field.Complement(p, c[0]), ComplementEach(p, c[1..]);
    forall k ensures Coef([x] + rest, k) == Mod(-Coef(c, k), p) {
      CoefCons(x, rest, k);
      CoefSplit(c, k);
    }
    [x] + rest
  }

  /** `complement()`: every coefficient replaced by its additive inverse; a
      non-zero leading coefficient stays non-zero. */
  function Complement(p: int, P: Polynomial): (r: Polynomial)
    requires p >= 2 && Valid(p, P)
    ensures Valid(p, r) && |r.coeffs| == |P.coeffs|
    ensures IsNegation(p, P.coeffs, r.coeffs)
  {
    var elements := ComplementEach(p, P.coeffs);
    var n := |elements|;
    if n >= 2 then
      assert Coef(P.coeffs, n - 1) == P.coeffs[0].value;
      NegOfNonZero(p, P.coeffs[0].value);
      assert Coef(elements, n - 1) == elements[0].value;
      Polynomial(Strip(elements))
    else
      Polynomial(Strip(elements))
  }

  /** `__sub__`: P plus the complement of Q, which is coefficient-wise subtraction mod p. */
  function Sub(p: int, P: Polynomial, Q: Polynomial): (r: Polynomial)
    requires p >= 2 && Valid(p, P) && Valid(p, Q)
    ensures Valid(p, r)
    ensures IsDifference(p, P.coeffs, Q.coeffs, r.coeffs)
  {
    var C := Complement(p, Q);
    var S := Add(p, P, C);
    SumWithNegation(p, P.coeffs, Q.coeffs, C.coeffs, S.coeffs);
    S
  }

  /** Adding the negation of b subtracts b. */
  lemma SumWithNegation(p: int, a: seq<Element>, b: seq<Element>, nb: seq<Element>, s: seq<Element>)
    requires p >= 2 && IsNegation(p, b, nb) && IsSum(p, a, nb, s)
    ensures IsDifference(p, a, b, s)
  {
    forall k ensures Coef(s, k) == Mod(Coef(a, k) - Coef(b, k), p) {
      SubViaComplement(p, Coef(a, k), Coef(b, k));
    }
  }

  /** Adding a list's negation gives zero everywhere. */
  lemma NegationCancels(p: int, a: seq<Element>, na: seq<Element>, s: seq<Element>)
    requires p >= 2 && IsNegation(p, a, na) && IsSum(p, a, na, s)
    ensures forall k :: Coef(s, k) == 0
  {
    forall k ensures Coef(s, k) == 0 {
      SubViaComplement(p, Coef(a, k), Coef(a, k));
    }
  }

  /** Addition of coefficient lists associates. */
  lemma SumAssociates(p: int, a: seq<Element>, b: seq<Element>, c: seq<Element>,
                      ab: seq<Element>, bc: seq<Element>, l: seq<Element>, r: seq<Element>)
    requires p >= 2 && IsSum(p, a, b, ab) && IsSum(p, b, c, bc)
    requires IsSum(p, ab, c, l) && IsSum(p, a, bc, r)
    ensures forall k :: Coef(l, k) == Coef(r, k)
  {
    forall k ensures Coef(l, k) == Coef(r, k) {
      ModAddAssociates(p, Coef(a, k), Coef(b, k), Coef(c, k), Coef(ab, k), Coef(bc, k));
    }
  }

  /** `P + complement(P)` is the zero polynomial `[0]`. */
  lemma AddComplementIsZero(p: int, P: Polynomial)
    requires p >= 2 && Valid(p, P)
    ensures Add(p, P, Complement(p, P)) == ZeroPoly
  {
    var C := Complement(p, P);
    var r := Add(p, P, C);
    NegationCancels(p, P.coeffs, C.coeffs, r.coeffs);
    CanonicalByCoef(r.coeffs, ZeroPoly.coeffs);
  }

  /** `P - P` is the zero polynomial. */
  lemma SubSelfIsZero(p: int, P: Polynomial)
    requires p >= 2 && Valid(p, P)
    ensures Sub(p, P, P) == ZeroPoly
  {
    AddComplementIsZero(p, P);
  }

  lemma AddCommutes(p: int, P: Polynomial, Q: Polynomial)
    requires p >= 2 && Valid(p, P) && Valid(p, Q)
    ensures Add(p, P, Q) == Add(p, Q, P)
  {
    CanonicalByCoef(Add(p, P, Q).coeffs, Add(p, Q, P).coeffs);
  }

  lemma AddAssociates(p: int, P: Polynomial, Q: Polynomial, R: Polynomial)
    requires p >= 2 && Valid(p, P) && Valid(p, Q) && Valid(p, R)
    ensures Add(p, Add(p, P, Q), R) == Add(p, P, Add(p, Q, R))
  {
    var PQ, QR := Add(p, P, Q), Add(p, Q, R);
    var left, right := Add(p, PQ, R), Add(p, P, QR);
    SumAssociates(p, P.coeffs, Q.coeffs, R.coeffs, PQ.coeffs, QR.coeffs, left.coeffs, right.coeffs);
    CanonicalByCoef(left.coeffs, right.coeffs);
  }

  /** Adding the zero polynomial changes nothing. */
  lemma AddZero(p: int, P: Polynomial)
    requires p >= 2 && Valid(p, P)
    ensures Add(p, ZeroPoly, P) == P
  {
    var r := Add(p, ZeroPoly, P);
    forall k ensures Coef(r.coeffs, k) == Coef(P.coeffs, k) {
      CoefRange(p, P.coeffs, k);
      assert Coef(ZeroPoly.coeffs, k) == 0;
    }
    CanonicalByCoef(r.coeffs, P.coeffs);
  }

  // Multiplication: `__mul__`.

  /** The coefficient of x^k in a * b, as a plain integer sum of products
      Coef(a, j) * Coef(b, k - j): a[0] is the coefficient of x^(|a|-1). */
  function ConvCoef(a: seq<Element>, b: seq<Element>, k: int): int
    decreases |a|
  {
    if a == [] then 0
    else a[0].value * Coef(b, k - (|a| - 1)) + ConvCoef(a[1..], b, k)
  }

  /** No product term reaches past degree |a| + |b| - 2, or below degree 0. */
  lemma {:induction false} ConvCoefOutside(a: seq<Element>, b: seq<Element>, k: int)
    requires k < 0 || k > |a| + |b| - 2
    ensures ConvCoef(a, b, k) == 0
    decreases |a|
  {
    if a != [] {
      ConvCoefOutside(a[1..], b, k);
    }
  }

  /** The reduced convolution sums of degrees n - 1 down to 0. */
  function Convolution(p: int, a: seq<Element>, b: seq<Element>, n: nat): (r: seq<Element>)
    requires p >= 2
    ensures |r| == n
    ensures forall k {:trigger Coef(r, k)} :: 0 <= k < n ==> Coef(r, k) == Mod(ConvCoef(a, b, k), p)
  {
    if n == 0 then [] else
    var x, rest := Element(Mod(ConvCoef(a, b, n - 1), p)), Convolution(p, a, b, n - 1);
    forall k | 0 <= k < n ensures Coef([x] + rest, k) == Mod(ConvCoef(a, b, k), p) {
      CoefCons(x, rest, k);
    }
    [x] + rest
  }

  /** The product before normalisation: |a| + |b| - 1 coefficients, each the
      reduced convolution sum of its degree. */
  function RawProduct(p: int, a: seq<Element>, b: seq<Element>): (r: seq<Element>)
    requires p >= 2 && |a| >= 1 && |b| >= 1
    ensures |r| == |a| + |b| - 1
    ensures IsProduct(p, a, b, r)
  {
    var r := Convolution(p, a, b, |a| + |b| - 1);
    forall k ensures Coef(r, k) == Mod(ConvCoef(a, b, k), p) {
      if !(0 <= k < |r|) {
        ConvCoefOutside(a, b, k);
      }
    }
    r
  }

  /** The polynomial product P * Q. */
  function Product(p: int, P: Polynomial, Q: Polynomial): (r: Polynomial)
    requires p >= 2 && Valid(p, P) && Valid(p, Q)
    ensures Valid(p, r) && |r.coeffs| <= |P.coeffs| + |Q.coeffs| - 1
    ensures IsProduct(p, P.coeffs, Q.coeffs, r.coeffs)
  {
    Polynomial(Strip(RawProduct(p, P.coeffs, Q.coeffs)))
  }

  /** The convolution over one more coefficient of a, counted from the bottom. */
  lemma ConvCoefStep(a: seq<Element>, b: seq<Element>, i: int, k: int)
    requires 0 <= i < |a|
    ensures ConvCoef(a[|a| - 1 - i..], b, k) == a[|a| - 1 - i].value * Coef(b, k - i) + ConvCoef(a[|a| - i..], b, k)
  {
    assert a[|a| - 1 - i..][1..] == a[|a| - i..];
  }

  /** Replacing the slice [lo, hi) of a list by a window of the same length
      changes only the degrees the window covers. */
  lemma SpliceCoef(c: seq<Element>, window: seq<Element>, lo: int, hi: int, k: int)
    requires 0 <= lo <= hi <= |c| && |window| == hi - lo
    ensures Coef(c[..lo] + window + c[hi..], k) ==
      if |c| - hi <= k < |c| - lo then Coef(window, k - (|c| - hi)) else Coef(c, k)
  {
    var front, tail := c[..lo], c[hi..];
    CoefConcat(front + window, tail, k);
    CoefConcat(front, window, k - |tail|);
    if k < |c| - hi {
      assert tail == c[hi..|c|];
      CoefSlice(c, hi, |c|, k);
    } else if k >= |c| - lo {
      assert front == c[0..lo];
      CoefSlice(c, 0, lo, k - (|c| - lo));
    }
  }

  /** One pass of the multiplication loop, at degree k: adding e * b into the
      window that ends i places from the bottom turns the partial sums over
      the low i coefficients of a into those over the low i + 1. */
  lemma MultiplyStepAt(p: int, a: seq<Element>, b: seq<Element>, i: int, product: seq<Element>,
                       scaled: seq<Element>, window: seq<Element>, product': seq<Element>, k: int)
    requires p >= 2 && |b| >= 1 && 0 <= i < |a|
    requires |product| == |a| + |b| - 1
    requires forall k {:trigger Coef(product, k)} :: Coef(product, k) == Mod(ConvCoef(a[|a| - i..], b, k), p)
    requires IsScaled(p, a[|a| - 1 - i], b, scaled)
    requires |window| == |b| && IsSum(p, product[|a| - 1 - i..|product| - i], scaled, window)
    requires product' == product[..|a| - 1 - i] + window + product[|product| - i..]
    ensures Coef(product', k) == Mod(ConvCoef(a[|a| - 1 - i..], b, k), p)
  {
    var lo, hi := |a| - 1 - i, |product| - i;
    ConvCoefStep(a, b, i, k);
    SpliceCoef(product, window, lo, hi, k);
    if i <= k < i + |b| {
      var old_sum, cb := ConvCoef(a[|a| - i..], b, k), a[lo].value * Coef(b, k - i);
      CoefSlice(product, lo, hi, k - i);
      assert Coef(product', k) == Mod(Coef(product, k) + Coef(scaled, k - i), p);
      AddCong(p, Mod(old_sum, p), Mod(cb, p), old_sum, cb);
    } else {
      assert Coef(b, k - i) == 0;
    }
  }

  /** One pass of the multiplication loop, at every degree. */
  lemma MultiplyStep(p: int, a: seq<Element>, b: seq<Element>, i: int, product: seq<Element>,
                     scaled: seq<Element>, window: seq<Element>, product': seq<Element>)
    requires p >= 2 && |b| >= 1 && 0 <= i < |a|
    requires |product| == |a| + |b| - 1
    requires forall k {:trigger Coef(product, k)} :: Coef(product, k) == Mod(ConvCoef(a[|a| - i..], b, k), p)
    requires IsScaled(p, a[|a| - 1 - i], b, scaled)
    requires |window| == |b| && IsSum(p, product[|a| - 1 - i..|product| - i], scaled, window)
    requires product' == product[..|a| - 1 - i] + window + product[|product| - i..]
    ensures forall k {:trigger Coef(product', k)} :: Coef(product', k) == Mod(ConvCoef(a[|a| - 1 - i..], b, k), p)
  {
    forall k ensures Coef(product', k) == Mod(ConvCoef(a[|a| - 1 - i..], b, k), p) {
      MultiplyStepAt(p, a, b, i, product, scaled, window, product', k);
    }
  }

  /** A list of the right length holding every convolution sum is the raw product. */
  lemma SumsAreRawProduct(p: int, a: seq<Element>, b: seq<Element>, product: seq<Element>)
    requires p >= 2 && |a| >= 1 && |b| >= 1 && |product| == |a| + |b| - 1
    requires forall k {:trigger Coef(product, k)} :: Coef(product, k) == Mod(ConvCoef(a, b, k), p)
    ensures product == RawProduct(p, a, b)
  {
    EqualByCoef(product, RawProduct(p, a, b));
  }

  /** One pass of the multiplication loop: the coefficient of a that is i
      places from the bottom, times b, is added into the window of the
      running sums that ends i places from the bottom. */
  method AddRow(p: int, a: seq<Element>, b: seq<Element>, i: int, product: seq<Element>)
      returns (product': seq<Element>)
    requires p >= 2 && |b| >= 1 && 0 <= i < |a|
    requires |product| == |a| + |b| - 1
    requires forall k {:trigger Coef(product, k)} :: Coef(product, k) == Mod(ConvCoef(a[|a| - i..], b, k), p)
    ensures |product'| == |product|
    ensures forall k {:trigger Coef(product', k)} :: Coef(product', k) == Mod(ConvCoef(a[|a| - 1 - i..], b, k), p)
  {
    var degree, s := |product|, |b|;
    var e := a[|a| - 1 - i];
    var scaled := ScaleBy(p, b, e);
    var t := AddElementwise(p, product[degree - s - i..degree - i], scaled);
    product' := product[..degree - s - i] + t + product[degree - i..];
    MultiplyStep(p, a, b, i, product, scaled, t, product');
  }

  /** `__mul__`: schoolbook multiplication. For each coefficient of P, from
      the lowest, the scaled copy of Q is added into a window of the product
      list by slice assignment; the result is normalised. */
  method Multiply(p: int, P: Polynomial, Q: Polynomial) returns (r: Polynomial)
    requires p >= 2 && Valid(p, P) && Valid(p, Q)
    ensures r == Product(p, P, Q)
    ensures IsProduct(p, P.coeffs, Q.coeffs, r.coeffs)
  {
    var a, b := P.coeffs, Q.coeffs;
    var degree := |b| + |a| - 1;
    var product := seq(degree, _ => Element(0));
    var i := 0;
    while i < |a|
      invariant 0 <= i <= |a| && |product| == degree
      invariant forall k {:trigger Coef(product, k)} :: Coef(product, k) == Mod(ConvCoef(a[|a| - i..], b, k), p)
    {
      product := AddRow(p, a, b, i, product);
      i := i + 1;
    }
    assert a[|a| - i..] == a;
    SumsAreRawProduct(p, a, b, product);
    var stripped := RemoveTrailingZeros(product);
    r := Polynomial(stripped);
  }

  /** Multiplying by the zero polynomial gives the zero polynomial. */
  lemma ProductWithZero(p: int, P: Polynomial)
    requires p >= 2 && Valid(p, P)
    ensures Product(p, P, ZeroPoly) == ZeroPoly
  {
    var r := Product(p, P, ZeroPoly);
    forall k ensures Coef(r.coeffs, k) == Coef(ZeroPoly.coeffs, k) {
      ConvCoefByZero(P.coeffs, k);
    }
    CanonicalByCoef(r.coeffs, ZeroPoly.coeffs);
  }

  lemma {:induction false} ConvCoefByZero(a: seq<Element>, k: int)
    ensures ConvCoef(a, [Zero], k) == 0
    decreases |a|
  {
    if a != [] {
      ConvCoefByZero(a[1..], k);
    }
  }

  /** Convolving with the empty list gives no terms. */
  lemma {:induction false} ConvCoefByEmpty(b: seq<Element>, k: int)
    ensures ConvCoef(b, [], k) == 0
    decreases |b|
  {
    if b != [] {
      ConvCoefByEmpty(b[1..], k);
    }
  }

  /** Putting a new leading coefficient x in front of c, the right-hand factor,
      adds x times the coefficient of b that meets it. */
  lemma {:induction false} ConvCoefConsRight(b: seq<Element>, x: Element, c: seq<Element>, k: int)
    ensures ConvCoef(b, [x] + c, k) == x.value * Coef(b, k - |c|) + ConvCoef(b, c, k)
    decreases |b|
  {
    if b != [] {
      var m := k - (|b| - 1);
      ConvCoefConsRight(b[1..], x, c, k);
      CoefCons(x, c, m);
      CoefSplit(b, k - |c|);
      if m == |c| {
        assert Coef(b[1..], k - |c|) == 0;
        assert Coef(c, m) == 0;
      }
    }
  }

  /** The coefficient sums are symmetric in the two factors, although the
      multiplication loop runs over the left one only. */
  lemma {:induction false} ConvCoefCommutes(a: seq<Element>, b: seq<Element>, k: int)
    ensures ConvCoef(a, b, k) == ConvCoef(b, a, k)
    decreases |a|
  {
    if a == [] {
      ConvCoefByEmpty(b, k);
    } else {
      ConvCoefCommutes(a[1..], b, k);
      ConvCoefConsRight(b, a[0], a[1..], k);
      assert [a[0]] + a[1..] == a;
    }
  }

  /** `P * Q == Q * P`. */
  lemma ProductCommutes(p: int, P: Polynomial, Q: Polynomial)
    requires p >= 2 && Valid(p, P) && Valid(p, Q)
    ensures Product(p, P, Q) == Product(p, Q, P)
  {
    var r, s := Product(p, P, Q), Product(p, Q, P);
    forall k ensures Coef(r.coeffs, k) == Coef(s.coeffs, k) {
      ConvCoefCommutes(P.coeffs, Q.coeffs, k);
    }
    CanonicalByCoef(r.coeffs, s.coeffs);
  }

  // `tomonic`.

  /** `tomonic()`: every coefficient times `1 / lead`. A new polynomial whose
      leading coefficient is 1 and whose coefficients, times the old leading
      coefficient, give back the old ones. */
  function ToMonic(p: int, P: Polynomial): (r: Polynomial)
    requires p >= 2 && Valid(p, P) && IsUnit(p, Lead(P))
    ensures Valid(p, r) && |r.coeffs| == |P.coeffs|
    ensures Lead(r) == One
    ensures forall k {:trigger Coef(r.coeffs, k)} :: Mod(Coef(r.coeffs, k) * Lead(P).value, p) == Coef(P.coeffs, k)
  {
    var inv := Quotient(p, One, Lead(P)).value;
    var elements := ScaleBy(p, P.coeffs, inv);
    MonicScaling(p, P.coeffs, inv, elements);
    Polynomial(Strip(elements))
  }

  lemma MonicScaling(p: int, c: seq<Element>, inv: Element, elements: seq<Element>)
    requires p >= 2 && |c| >= 1 && AllElements(p, c)
    requires Solves(p, inv.value, One, c[0])
    requires |elements| == |c| && IsScaled(p, inv, c, elements)
    ensures elements[0] == One
    ensures forall k {:trigger Coef(elements, k)} :: Mod(Coef(elements, k) * c[0].value, p) == Coef(c, k)
  {
    var l := c[0].value;
    forall k ensures Mod(Coef(elements, k) * l, p) == Coef(c, k) {
      CoefRange(p, c, k);
      UnitScales(p, Coef(c, k), inv.value, l);
      assert Coef(c, k) * inv.value == inv.value * Coef(c, k);
    }
    assert Coef(c, |c| - 1) == l;
    assert inv.value * l == l * inv.value;
    assert elements[0].value == Coef(elements, |c| - 1) == 1;
  }

  /** Applying `tomonic` twice is the same as once. */
  lemma ToMonicIdempotent(p: int, P: Polynomial)
    requires p >= 2 && Valid(p, P) && IsUnit(p, Lead(P))
    ensures IsUnit(p, Lead(ToMonic(p, P)))
    ensures ToMonic(p, ToMonic(p, P)) == ToMonic(p, P)
  {
    var M := ToMonic(p, P);
    assert !Solves(p, 0, One, One);
    assert Solves(p, 1, One, One);
    assert Quotient(p, One, One) == Some(One);
    var N := ToMonic(p, M);
    forall k ensures Coef(N.coeffs, k) == Coef(M.coeffs, k) {
      CoefRange(p, M.coeffs, k);
      assert Mod(Coef(N.coeffs, k) * 1, p) == Coef(M.coeffs, k);
    }
    CanonicalByCoef(N.coeffs, M.coeffs);
  }
}
