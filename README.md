# Arithmetic in GF(p), GF(p)[x] and GF(p)[x]/(m), with base-n digits

This project is a verified Dafny model of the arithmetic core of the Algebra repository.

- **GF(p) elements.** `Element` values are integers normalised into `[0, p)`. `+`, `*` and `-` are taken mod p, and `-` is addition of the complement. Division is a linear scan for the least `e` with `e * b ≡ a (mod p)`, and it returns `None` when there is no such `e`.
- **Polynomials over GF(p).** Coefficient lists are stored most-significant first and normalised by stripping leading zeros, so zero is `[0]`. The operations are:
  - right-aligned addition;
  - complement and subtraction;
  - schoolbook multiplication, which updates a product list slice by slice;
  - long division with a moving window, giving `/` and `%`;
  - `tomonic`.
- **The quotient ring GF(p)[x]/(m).** Every result of the five ring operators is reduced by `% m`.
- **Base-n digits.** `decimal_to_base_n` gives the base-n digits of a non-negative integer, most-significant first.

The source keeps the prime `modulus` and the ring's `modulus_polynomial` in module globals. The model takes them as explicit parameters `p` (with `p >= 2`) and `m`.

## Where the source's own tests appear

- `Polynomial(coeffs)` is `Polynomials.FromInts(p, xs)`.
- `.tolist()` is `Polynomials.ToList`.

Coefficients have two views:

- `Coef(c, k)` is the coefficient of `x^k`, and 0 outside the list.
- The ghost predicates `IsSum`, `IsNegation`, `IsDifference`, `IsScaled` and `IsProduct` state the meaning of each list operation coefficient by coefficient, in terms of `ModArith.Mod`.

Code that works step by step in the source is modelled as a method with a loop, and each such method is proved equal to the specification function it implements:

- the scan in `Element.__truediv__`;
- the index loop of `_remove_trailing_zeros`;
- the slice updates of `__mul__`;
- the window loop of `_divide_with_remainder`;
- the digit loop of `decimal_to_base_n`.

Errors the source raises become values:

- `Option.None` for a digit that has no quotient;
- `Result.Failure` for the three ways a division can fail:
  - `DigitUndefined`: a window digit with no quotient;
  - `LengthMismatch`: the length assertion of `_subtract_elementwise`;
  - `ZeroDivisor`: `%` by `[0]`.

Files:

- `wrappers.dfy`: `Option`.
- `mod_arith.dfy`: Euclidean remainder and its congruence laws.
- `field.dfy`: `Element`.
- `polynomial.dfy`: `Polynomial` except division.
- `division.dfy`: `_divide_with_remainder`, `/`, `%` and the division theorem.
- `ring.dfy`: `PolynomialOnRing`.
- `base_n.dfy`: `decimal_to_base_n`.
- `examples.dfy`: the concrete cases of `test.py` for `Element`, `Polynomial` and `decimal_to_base_n` (module `Examples`).
- `ring_examples.dfy`: the concrete cases of `test.py` for `PolynomialOnRing` (module `RingExamples`).

## Model

| member | source | states |
|---|---|---|
| ModArith.Mod | galois/polynomial.py:23 | The remainder of x by p lies in `[0, p)`. |
| ModArith.ModIsRemainder | galois/polynomial.py:23 | `Mod(x, p)` equals the Euclidean remainder `x % p`, which is Python's `%` for a positive modulus. |
| Field.FromInt | galois/polynomial.py:16-23 | `Element(x)` lies in `[0, p)` and is congruent to x mod p. |
| Field.Add | galois/polynomial.py:31-33 | The sum is in range and equals `(a + b) mod p`. For in-range operands it is either `a + b` or `a + b - p`. |
| Field.Mul | galois/polynomial.py:35-37 | The product is in range and equals `(a * b) mod p`. |
| Field.Complement | galois/polynomial.py:50-51 | `complement(a)` is `-a mod p`. `a + complement(a) ≡ 0`. The complement is 0 exactly when a is 0. |
| Field.ComplementResidue | galois/polynomial.py:50-51 | For x in `[0, p)`, `x + ((p - x) mod p) ≡ 0`, and `(p - x) mod p` is 0 iff x is 0. |
| Field.Sub | galois/polynomial.py:39-42 | `a - b` (written as a plus the complement of b) is in range and equals `(a - b) mod p`. |
| Field.SubViaComplement | galois/polynomial.py:39-42 | Adding the complement equals subtracting, mod p. |
| Field.SubIsAddComplement | galois/polynomial.py:39-42 | `Sub(a, b) == Add(a, Complement(b))` for every a and b. |
| Field.AddComplementIsZero | galois/polynomial.py:50-51 | `a + complement(a) == 0` and `complement(0) == 0`. |
| Field.AddCommutes | galois/polynomial.py:31-33 | Element addition is commutative. |
| Field.ScanFrom | galois/polynomial.py:45-48 | Scanning from e gives the least solution in `[e, p)`, or None when there is none in that range. |
| Field.Quotient | galois/polynomial.py:44-48 | `a / b` is the least `e` in `[0, p)` with `e*b ≡ a`. It is None iff no `e` in `[0, p)` solves it. |
| Field.Divide | galois/polynomial.py:44-48 | The scanning loop returns `Quotient(a, b)`, and a returned `e` satisfies `Mul(e, b) == a`. |
| Field.QuotientTimesDivisor | galois/polynomial.py:44-48 | When b is invertible, `(a / b) * b == a` for every element a. |
| Field.UnitScales | galois/polynomial.py:44-48 | Arithmetic step used by `QuotientTimesDivisor` and `Polynomials.MonicScaling`: if `i*b ≡ 1`, then `((a*i) mod p) * b ≡ a` for a in range. |
| Field.ExtGcd | galois/polynomial.py:44-48 | Proof device for `PrimeUnits`, not code of the source: extended Euclid returns a common divisor g of a and b together with x and y such that `a*x + b*y == g`. |
| Field.ExtGcdStep | galois/polynomial.py:44-48 | Proof device for `ExtGcd`, and through it `PrimeUnits`: one step of Euclid carries the Bézout identity from `(b, a mod b)` to `(a, b)`. |
| Field.PrimeUnits | galois/polynomial.py:44-48 | For prime p, every nonzero element has a quotient for `1 / b`, so it is a unit. |
| Polynomials.Strip | galois/polynomial.py:66-81 | For non-empty input, the result is normal (no leading zero unless it is `[0]`) and no longer than the input, and every coefficient is unchanged. |
| Polynomials.StripIsSuffix | galois/polynomial.py:81 | The stripped list is a suffix of the input, as `elements[n:]` is. |
| Polynomials.StripElements | galois/polynomial.py:66-81 | Stripping keeps every coefficient in GF(p). |
| Polynomials.StripNormal | galois/polynomial.py:66-81 | Stripping an already normal list changes nothing. |
| Polynomials.RemoveTrailingZeros | galois/polynomial.py:66-81 | The early-exit index loop returns `Strip(c)`. For non-empty input the result is normal and has the same coefficients. |
| Polynomials.ElementsOf | galois/polynomial.py:63 | `[Element(e) for e in elements]` keeps the length, and coefficient k is the input's entry reduced mod p. |
| Polynomials.FromInts | galois/polynomial.py:55-64 | A constructed polynomial is valid and no longer than its input. Each coefficient is the input reduced mod p, and 0 beyond it. The result is `[0]` iff every input entry is ≡ 0. |
| Polynomials.FromIntsZero | galois/polynomial.py:62-81 | A list strips to `[0]` exactly when every entry reduces to 0. |
| Polynomials.ToList | galois/polynomial.py:103-106 | `tolist()` has one integer per coefficient, the coefficient's value. |
| Polynomials.FromToList | galois/polynomial.py:103-111 | Rebuilding a valid polynomial from its `tolist()` gives it back. |
| Polynomials.FromReducedInts | galois/polynomial.py:55-64 | A normal list of reduced integers is stored as given, and `tolist()` returns it. |
| Polynomials.ElementsToPolynomial | galois/polynomial.py:108-111 | `_elements_to_polynomial` of a list of elements is the polynomial of its stripped list. |
| Polynomials.RebuildElements | galois/polynomial.py:108-111 | Going through the integer list and back strips the elements and changes nothing else. |
| Polynomials.RebuildAt | galois/polynomial.py:108-111 | `_elements_to_polynomial` keeps every coefficient. |
| Polynomials.Equal | galois/polynomial.py:187-190 | `==` holds iff the two polynomials are the same value. |
| Polynomials.AddElementwise | galois/polynomial.py:89-91 | The zip of two equal-length lists has their length, and each coefficient is the sum mod p. |
| Polynomials.SubtractElementwise | galois/polynomial.py:131-134 | The zip of two equal-length lists has their length, and each coefficient is the difference mod p. |
| Polynomials.ScaleBy | galois/polynomial.py:136-138 | Scaling keeps the length, and each coefficient is e times the input's, mod p. |
| Polynomials.Aligned | galois/polynomial.py:113-119 | Right-aligned addition has the longer operand's length. Each coefficient is the sum, mod p, of the operands' coefficients of the same degree. |
| Polynomials.ShorterFirstAt | galois/polynomial.py:114-116 | The branch for a shorter left operand adds coefficients of equal degree. |
| Polynomials.LongerFirstAt | galois/polynomial.py:117-119 | The branch for a longer (or equal) left operand adds coefficients of equal degree. |
| Polynomials.Add | galois/polynomial.py:113-122 | `P + Q` is valid and no longer than the longer operand. Each coefficient is the sum of the operands' coefficients mod p. |
| Polynomials.ComplementEach | galois/polynomial.py:125 | The list of complements has the same length, and each coefficient is the negation mod p. |
| Polynomials.Complement | galois/polynomial.py:124-126 | `P.complement()` is valid and has P's length (a leading coefficient stays nonzero). Each coefficient is negated mod p. |
| Polynomials.Sub | galois/polynomial.py:128-129 | `P - Q` is valid, and each coefficient is the difference mod p. |
| Polynomials.SumWithNegation | galois/polynomial.py:128-129 | Adding a coefficient-wise negation is coefficient-wise subtraction. |
| Polynomials.NegationCancels | galois/polynomial.py:124-129 | A list plus its negation has every coefficient 0. |
| Polynomials.SumAssociates | galois/polynomial.py:113-122 | Coefficient-wise addition is associative. |
| Polynomials.AddComplementIsZero | galois/polynomial.py:113-126 | `P + P.complement() == [0]`. |
| Polynomials.SubSelfIsZero | galois/polynomial.py:128-129 | `P - P == [0]`. |
| Polynomials.AddCommutes | galois/polynomial.py:113-122 | `P + Q == Q + P`, even though the two branches slice different operands. |
| Polynomials.AddAssociates | galois/polynomial.py:113-122 | `(P + Q) + R == P + (Q + R)`. |
| Polynomials.AddZero | galois/polynomial.py:113-122 | `[0] + P == P`. |
| Polynomials.ConvCoefOutside | galois/polynomial.py:140-154 | The convolution coefficient is 0 outside degrees `0 .. |a| + |b| - 2`. |
| Polynomials.Convolution | galois/polynomial.py:140-154 | A list of n coefficients whose k-th is the convolution sum at k, mod p. |
| Polynomials.RawProduct | galois/polynomial.py:143-151 | Before normalisation, the product has length `|P| + |Q| - 1`. Coefficient k is the sum of `P_i * Q_j` over `i + j = k`, mod p. |
| Polynomials.Product | galois/polynomial.py:140-154 | `P * Q` is valid, no longer than `|P| + |Q| - 1`, and each coefficient is the convolution sum mod p. |
| Polynomials.ConvCoefStep | galois/polynomial.py:148-151 | Taking in one more coefficient of P (from the low end, as `reversed(self)` does) adds its product with Q shifted by its degree. |
| Polynomials.MultiplyStepAt | galois/polynomial.py:148-151 | One slice update of the loop keeps "the product list holds the convolution of the coefficients seen so far". |
| Polynomials.AddRow | galois/polynomial.py:148-151 | One pass adds the next-lowest coefficient of P, times Q, into its window, extending the convolution sums held by the list to one more coefficient of P. |
| Polynomials.Multiply | galois/polynomial.py:140-154 | The slice-updating loop returns `Product(P, Q)`, whose coefficients are the convolution sums. |
| Polynomials.ProductWithZero | galois/polynomial.py:140-154 | `P * [0] == [0]`. |
| Polynomials.ConvCoefByZero | galois/polynomial.py:140-154 | Convolving with `[0]` gives 0 at every degree. |
| Polynomials.ConvCoefByEmpty | galois/polynomial.py:147-151 | Convolving with the empty list gives 0 at every degree (base case of the symmetry proof). |
| Polynomials.ConvCoefConsRight | galois/polynomial.py:147-151 | A new leading coefficient x on the right-hand factor adds `x * Coef(b, k - |c|)` to the degree-k sum, as the loop would if it ran over that factor. |
| Polynomials.ConvCoefCommutes | galois/polynomial.py:147-151 | The degree-k convolution sum is the same with the factors swapped, although the loop only walks `reversed(self)`. |
| Polynomials.ProductCommutes | galois/polynomial.py:140-154 | `P * Q == Q * P`. |
| Polynomials.ToMonic | galois/polynomial.py:200-203 | `tomonic()` is valid, keeps the length and has leading coefficient 1. Each coefficient times the old leading coefficient gives back the old coefficient. |
| Polynomials.MonicScaling | galois/polynomial.py:201-202 | Scaling by `1 / lead` makes the lead 1 and is undone by multiplying by the lead. |
| Polynomials.ToMonicIdempotent | galois/polynomial.py:200-203 | A monic polynomial is unchanged by `tomonic()`. |
| PolynomialDivision.DivLoop | galois/polynomial.py:163-180 | The loop gives one quotient digit per pass, `|P| - |Q| + 1` in all. The remainder window has `|Q| - 1` coefficients, or 1 for a constant divisor. A constant divisor of a longer dividend fails. |
| PolynomialDivision.DivRem | galois/polynomial.py:156-180 | Quotient `[0]` when Q is longer than P, else `|P| - |Q| + 1` digits. The remainder has `|Q| - 1` coefficients when `2 <= |Q| <= |P|`. A constant divisor of a longer dividend fails. |
| PolynomialDivision.DivideWithRemainder | galois/polynomial.py:156-180 | The window loop, with its early returns, computes `DivRem(P, Q)`. |
| PolynomialDivision.ConvCoefAppend | galois/polynomial.py:170 | Appending a quotient digit shifts the previous digits up one degree. |
| PolynomialDivision.ConvCoefStrip | galois/polynomial.py:184 | Leading zero digits do not change the quotient's product. |
| PolynomialDivision.InitialSplit | galois/polynomial.py:165-166 | Before the loop, P equals the first window followed by the rest of P. |
| PolynomialDivision.SubtractStep | galois/polynomial.py:168-173 | Subtracting the digit times Q keeps P equal to quotient*Q plus the window. It zeroes the window's leading entry. |
| PolynomialDivision.BringDown | galois/polynomial.py:174-180 | Dropping the zero lead and appending the next coefficient of P keeps the identity. |
| PolynomialDivision.DivLoopIdentity | galois/polynomial.py:163-180 | Any successful run of the loop returns digits and remainder with `quotient*Q + remainder == P`, all of them in GF(p). |
| PolynomialDivision.DivLoopAdvances | galois/polynomial.py:168-180 | A pass that is not the last hands the loop a new window of `|Q|` coefficients and one more digit; the identity holds for them and the loop's outcome is unchanged. |
| PolynomialDivision.DivLoopStops | galois/polynomial.py:167-178 | A pass that brings nothing down returns exactly when the digit exists, the window has `|Q|` entries and the dividend is used up, and then the division is sound. |
| PolynomialDivision.NextStep | galois/polynomial.py:168-180 | A pass that is not the last carries the identity to the next window. |
| PolynomialDivision.FinalStep | galois/polynomial.py:168-178 | The last pass returns a sound division. |
| PolynomialDivision.LastIdentity | galois/polynomial.py:174-178 | The returned window `subtracted[-s+1:]` completes the identity. |
| PolynomialDivision.DivisionIdentity | galois/polynomial.py:156-180 | A successful `_divide_with_remainder(P, Q)` satisfies `quotient*Q + remainder == P` coefficient-wise, with every coefficient in GF(p). For a constant divisor the remainder is `[0]`. |
| PolynomialDivision.DivRemSucceeds | galois/polynomial.py:156-180 | With an invertible leading coefficient of Q, the division succeeds iff `|Q| >= 2` or `|P| == 1`. |
| PolynomialDivision.DivLoopSucceeds | galois/polynomial.py:167-180 | With an invertible divisor lead, every digit exists, so the loop reaches its return. |
| PolynomialDivision.PrimeDivRemSucceeds | galois/polynomial.py:156-180 | For prime p and `Q != [0]`, Q's lead is a unit and the division succeeds iff `|Q| >= 2` or `|P| == 1`. |
| PolynomialDivision.TrueDiv | galois/polynomial.py:182-185 | `P / Q` succeeds iff the division does. It is valid and has at most `|P| - |Q| + 1` coefficients, and it is `[0]` when Q is longer. |
| PolynomialDivision.ModPoly | galois/polynomial.py:192-198 | `P % [0]` fails with a zero divisor. Otherwise `%` succeeds iff the division does, and it gives P unchanged when Q is longer. |
| PolynomialDivision.DivisionTheorem | galois/polynomial.py:156-198 | Whenever `P % Q` succeeds, `(P / Q) * Q + (P % Q) == P`, and the remainder is `[0]` or shorter than Q. |
| PolynomialDivision.DivisionTheoremAt | galois/polynomial.py:182-198 | Coefficient k of `(P / Q) * Q + (P % Q)` is P's coefficient k. |
| QuotientRing.ReduceBound | galois/polynomial.py:192-198 | Reducing a valid polynomial by a ring modulus always succeeds. The result is shorter than m, and a polynomial already shorter than m is unchanged. |
| QuotientRing.Rebuild | galois/polynomial.py:213 | `PolynomialOnRing(p.tolist())` gives back the same polynomial. |
| QuotientRing.RingAdd | galois/polynomial.py:210-213 | The ring sum is the plain sum reduced mod m, and it is shorter than m. |
| QuotientRing.RingSub | galois/polynomial.py:215-218 | The ring difference, which the source reduces three times, equals the plain difference reduced once mod m. It is shorter than m, and it fails when m is `[0]`. |
| QuotientRing.RingMul | galois/polynomial.py:220-223 | The ring product is the plain product reduced mod m, and it is shorter than m. |
| QuotientRing.RingDiv | galois/polynomial.py:225-228 | A failing plain quotient is passed on. Otherwise the ring quotient is the plain quotient reduced mod m, and it is shorter than m. |
| QuotientRing.RingMod | galois/polynomial.py:230-233 | The ring remainder is `(P % Q) % m`. It fails as `P % Q` does, and otherwise it is shorter than m. |
| QuotientRing.RingAddCommutes | galois/polynomial.py:210-213 | Ring addition is commutative. |
| QuotientRing.RingMulCommutes | galois/polynomial.py:220-223 | Ring multiplication is commutative. |
| QuotientRing.ReduceIdempotent | galois/polynomial.py:192-198 | Reducing twice by m is reducing once. |
| BaseN.Digits | util/util.py:7-11 | Every digit lies in `[0, n)`, and for `x > 0` the first digit is nonzero. |
| BaseN.ToBaseN | util/util.py:1-12 | No result iff `x < 0`, i.e. the assertion fails. `0` gives `[0]`. Every digit is in `[0, n)`, and no leading zero appears except in `[0]`. |
| BaseN.Reverse | util/util.py:11 | Reversal keeps the length. |
| BaseN.DecimalToBaseN | util/util.py:1-12 | The while loop with its final reverse returns `ToBaseN(x, n)`. |
| BaseN.CollectDigit | util/util.py:8-10 | One pass of the loop (append `x % n`, then `x // n`) keeps the eventual reversed result. |
| BaseN.DivShrinks | util/util.py:8-10 | `x // n` is strictly smaller than a positive x, so the loop terminates. |
| BaseN.DigitsRoundTrip | util/util.py:7-12 | Horner evaluation of the digits gives back x. |
| BaseN.ToBaseNRoundTrip | util/util.py:1-12 | For `x >= 0` the encoding succeeds and evaluates back to x. |
| BaseN.EvalPositive | util/util.py:7-12 | Digits with a nonzero lead evaluate to a positive number. |
| BaseN.EvalDigits | util/util.py:7-12 | A digit list without a leading zero is the encoding of its own value, so the encoding is a bijection onto such lists. |
| Examples.ElementInit | test.py:10-15 | `Element(-1) == 2` and `Element(4) == 1` for p = 3. |
| Examples.ElementComplement | test.py:17-20 | `complement(1) == 2`. |
| Examples.ElementAdd | test.py:22-31 | `1 + 1 == 2` and `2 + 2 == 1`. |
| Examples.ElementMul | test.py:33-42 | `1 * 2 == 2` and `Element(3) * 2 == 0`. |
| Examples.ElementSub | test.py:44-53 | `1 - 2 == 2` and `0 - 1 == 2`. |
| Examples.ElementDiv | test.py:55-64 | `1 / 2 == 2` and `0 / 2 == 0`. Also `0 / 0 == 0`, `1 / 0` is None, and `1 / 2` is None mod 4. |
| Examples.PolynomialInit | test.py:68-69 | `[1,1,2,0,1]` is kept as it is. |
| Examples.PolynomialStrip | test.py:80-81 | `[0,0,2,1]` loses its leading zeros and becomes `[2,1]`. |
| Examples.PolynomialAllZero | test.py:82-83 | `[0,0,0,0]` becomes `[0]`. |
| Examples.ElementwiseAddCase | test.py:86-92 | `_add_elementwise([0,2,1], [1,2,2])` is `[1,1,0]`. |
| Examples.PolynomialAdd | test.py:94-103 | `[1,1,2,0,1] + [1,2]` and `[1,2] + [1,1,2,0,1]` are both `[1,1,2,1,0]`. |
| Examples.PolynomialAddToZero | test.py:105-108 | `[2,0,1] + [1,0,2] == [0]`. |
| Examples.PolynomialComplement | test.py:110-113 | `[1,2,0].complement() == [2,1,0]`. |
| Examples.PolynomialSub | test.py:115-119 | `[2,0,1,0,1] - [1,0,2,2,0] == [1,0,2,1,1]`. |
| Examples.ScaleCase | test.py:121-132 | `[1,0,2]` times 2 rebuilds as `[2,0,1]`, and `[2,2,2,1]` times 2 as `[1,1,1,2]`. |
| Examples.PolynomialMul | test.py:134-138 | `[1,1] * [1,2] == [1,0,2]`. |
| Examples.PolynomialMulLonger | test.py:140-143 | `[2,2,1] * [1,2,0] == [2,0,2,2,0]`. |
| Examples.PolynomialMulThird | test.py:145-148 | `[2,1,0] * [1,1,1] == [2,0,0,1,0]`. |
| Examples.PolynomialDivEqual | test.py:150-154 | `[1,1] / [2,2] == [2]`: one pass with digit 2. |
| Examples.PolynomialDivShort | test.py:161-164 | `[2,1] / [1,1,0,2,1] == [0]`: the divisor is longer. |
| Examples.DivLoopCase | test.py:156-159 | The division loop on `[1,1,2,0,1]` by `[1,0,2]` makes three passes, giving digits `[1,1,0]` and window `[1,1]`. |
| Examples.PolynomialDivMod | test.py:156-170 | `[1,1,2,0,1] / [1,0,2] == [1,1,0]` and `[1,1,2,0,1] % [1,0,2] == [1,1]`. |
| Examples.PolynomialModOnce | test.py:177-180 | `[1,0,1] % [1,0,2] == [2]`: the remainder window `[0,2]` loses its leading zero. |
| Examples.ShortDividend | test.py:172-175 | `[1,0,2] % [1,1,2,0,1]` is `[1,0,2]` unchanged, and `[1,0,2] / [1,1,2,0,1] == [0]`. |
| Examples.ModByZero | galois/polynomial.py:193-194 | `P % [0]` raises `ZeroDivisionError`. |
| Examples.MonicCase | test.py:182-185 | `[2,0,2,1].tomonic() == [1,0,1,2]`. |
| RingExamples.RingAddCase | test.py:200-203 | In GF(3)[x]/(x^2+2), `[1,1,2] + [1,2,0] == [1]`. |
| RingExamples.RingAddLonger | test.py:205-208 | In GF(3)[x]/(x^2+2), `[1,2,1,0,0] + [1,1,2,1,1] == [1,0]`. |
| RingExamples.RingAddToZero | test.py:210-213 | In GF(3)[x]/(x^2+2), `[2,0,1] + [1,0,2] == [0]`. |
| RingExamples.RingSubCase | test.py:215-219 | In GF(3)[x]/(x^2+2), `[2,0,1,0,1] - [1,0,2,2,0] == [1,1]`. |
| RingExamples.RingMulCase | test.py:222-225 | In GF(3)[x]/(x^2+2), `[1,1] * [1,2] == [0]`. |
| RingExamples.RingMulLonger | test.py:227-230 | In GF(3)[x]/(x^2+2), `[2,2,1] * [1,2,0] == [2,1]`. |
| RingExamples.RingMulThird | test.py:232-235 | In GF(3)[x]/(x^2+2), `[2,1,0] * [1,1,1] == [1,2]`. |
| RingExamples.RingDivEqual | test.py:237-241 | In GF(3)[x]/(x^2+2), `[1,1] / [2,2] == [2]`. |
| RingExamples.RingDivLonger | test.py:243-246 | In GF(3)[x]/(x^2+2), `[1,1,0,2,1] / [2,1] == [0]`: the plain quotient `[2,1,1,2]` reduces to zero. |
| RingExamples.RingDivShort | test.py:248-251 | In GF(3)[x]/(x^2+2), `[2,1] / [1,1,0,2,1] == [0]`. |
| RingExamples.RingModCase | test.py:253-257 | In GF(3)[x]/(x^2+2), `[1,1,2,0,1] % [1,0,1] == [2,0]`. |
| Examples.BaseNZero | util/util.py:2-5 | `0 ↦ [0]`, and `-1` is rejected. |
| Examples.BaseNBinary | util/util.py:7-12 | `5` in base 2 is `[1,0,1]`. |
| Examples.BaseNTernary | util/util.py:7-12 | `26` in base 3 is `[2,2,2]`. |

## Left out

- `set_modulus` and the module globals `modulus` and `modulus_polynomial` (galois/polynomial.py:2-12): they are parameters `p` and `m` of every operation. Switching them mid-run is not modelled.
- `Element.__eq__`, `__str__`, `Polynomial.__str__`, `__len__`, `__iter__` and `__getitem__`: these are plumbing. Equality of elements is equality of the datatype, and length and indexing are those of the coefficient sequence.
- The str→int round trip inside `tolist` and `_elements_to_polynomial`: it is modelled as the integer projection `ToList`, which for element values is the identity.
- `__setitem__`: it mutates a coefficient in place, and no arithmetic uses it.
- The `isinstance` checks in `__eq__`: every operand in the model is a polynomial by its type.
- Python object identity and aliasing: polynomials are values. `tomonic()` therefore cannot change its receiver, which test.py:187-189 relies on.
- `PolynomialOnRing` as a separate class: ring operands are plain `Polynomial` values, and construction does not reduce, as in the source.
- Polynomials.FromInts: requires a non-empty list. `Polynomial([])` keeps an empty list, which later breaks `+`.
- Polynomials.ToMonic: requires the leading coefficient to be a unit. Otherwise the source multiplies by `None` and crashes.
- PolynomialDivision.DivLoop: a quotient digit that does not exist, which in the source crashes in `_multiply_element_to_polynomial`, becomes `Failure(DigitUndefined)`. This also covers `P / [0]`, which the source does not guard.
- PolynomialDivision.DivLoop: a constant divisor of a longer dividend becomes `Failure(LengthMismatch)`. This models the failing length assertion of `_subtract_elementwise`: `subtracted[-s+1:]` keeps the whole window when `s = 1`.
- Exceptions in general: they become `Failure` values rather than control flow.
- The division properties (digits exist, identity holds): they are proved under an invertible leading coefficient of the divisor, which every nonzero divisor has when p is prime (`Field.PrimeUnits`). For non-prime moduli the model keeps the source's behaviour, and only the failure cases are stated.
- The unittest harness in test.py: its cases appear as the `Examples` and `RingExamples` lemmas, without the harness itself. Two cases are not among them: the modulus-25 formatting test (test.py:71-78), which checks `__str__` output, and the second `tomonic` case (test.py:187-189), which holds for values because `ToMonic` returns a new polynomial.
- BaseN.ToBaseN: requires `n >= 2`; the source has no guard on n. With `n = 1` the loop never ends, because `x // 1 == x`. With `n = 0` and `x > 0`, `x % 0` raises `ZeroDivisionError`. A negative n ends the loop after one pass, with Python's floored `x % n`, a digit that is not in `[0, n)`. `x = 0` gives `[0]` for every n, which the model states only for `n >= 2`.
- Primitive-root and minimal-polynomial search: these are not part of this model.
