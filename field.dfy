/** Elements of the prime field GF(p) (class `Element` of galois/polynomial.py).
    The modulus p, a module global in the source, is an explicit parameter
    here; every operation requires p >= 2, which is what `set_modulus` must
    have established before any element is built. */
module Field {
  import opened ModArith
  import opened Wrappers

  /** An element holds its canonical representative. */
  datatype Element = Element(value: int)

  const Zero := Element(0)
  const One := Element(1)

  /** The invariant every constructed element satisfies. */
  predicate IsElement(p: int, a: Element) {
    0 <= a.value < p
  }

  /** `Element(x)`: the representative of x in [0, p). */
  function FromInt(p: int, x: int): (r: Element)
    requires p >= 2
    ensures IsElement(p, r) && Mod(r.value, p) == Mod(x, p)
  {
    Element(Mod(x, p))
  }

  /** `a + b`: the sum reduced mod p, which wraps around p at most once. */
  function Add(p: int, a: Element, b: Element): (r: Element)
    requires p >= 2
    ensures IsElement(p, r) && r.value == Mod(a.value + b.value, p)
    ensures IsElement(p, a) && IsElement(p, b) ==>
      r.value == a.value + b.value || r.value == a.value + b.value - p
  {
    FromInt(p, Mod(a.value + b.value, p))
  }

  /** `a * b`: the product reduced mod p. */
  function Mul(p: int, a: Element, b: Element): (r: Element)
    requires p >= 2
    ensures IsElement(p, r) && r.value == Mod(a.value * b.value, p)
  {
    FromInt(p, Mod(a.value * b.value, p))
  }

  /** `a.complement()`, built as `Element(p - a)`: the additive inverse. */
  function Complement(p: int, a: Element): (r: Element)
    requires p >= 2
    ensures IsElement(p, r) && r.value == Mod(-a.value, p)
    ensures IsElement(p, a) ==> Mod(a.value + r.value, p) == 0
    ensures IsElement(p, a) ==> (r.value == 0 <==> a.value == 0)
  {
    NegCong(p, a.value);
    ComplementResidue(p, a.value);
    FromInt(p, p - a.value)
  }

  lemma ComplementResidue(p: int, x: int)
    requires p >= 2
    ensures 0 <= x < p ==> Mod(x + Mod(p - x, p), p) == 0
    ensures 0 <= x < p ==> (Mod(p - x, p) == 0 <==> x == 0)
  {
    if 0 <= x < p {
      ModPlusMultiple(0, 1, p);
      assert Mod(p, p) == 0;
      if 0 < x {
        assert Mod(p - x, p) == p - x;
      }
    }
  }

  /** `a - b`, computed as a plus the complement of b: subtraction mod p. */
  function Sub(p: int, a: Element, b: Element): (r: Element)
    requires p >= 2
    ensures IsElement(p, r) && r.value == Mod(a.value - b.value, p)
  {
    var c := Complement(p, b);
    SubViaComplement(p, a.value, b.value);
    FromInt(p, Mod(a.value + c.value, p))
  }

  lemma SubViaComplement(p: int, x: int, y: int)
    requires p >= 2
    ensures Mod(x + Mod(-y, p), p) == Mod(x - y, p)
  {
    AddCong(p, x, Mod(-y, p), x, -y);
  }

  /** The test in the division scan: e times b is a. */
  predicate Solves(p: int, e: int, a: Element, b: Element)
    requires p >= 2
  {
    Mod(e * b.value, p) == a.value
  }

  /** The scan of `a / b` from candidate e upwards. */
  function ScanFrom(p: int, a: Element, b: Element, e: int): (r: Option<Element>)
    requires p >= 2 && 0 <= e <= p
    ensures r.Some? ==> e <= r.value.value < p && Solves(p, r.value.value, a, b)
    ensures r.Some? ==> forall e' :: e <= e' < r.value.value ==> !Solves(p, e', a, b)
    ensures r.None? ==> forall e' :: e <= e' < p ==> !Solves(p, e', a, b)
    decreases p - e
  {
    if e == p then None
    else if Solves(p, e, a, b) then Some(Element(e))
    else ScanFrom(p, a, b, e + 1)
  }

  /** `a / b`: the least e in [0, p) with e * b == a, or None when there is none. */
  function Quotient(p: int, a: Element, b: Element): (r: Option<Element>)
    requires p >= 2
    ensures r.Some? ==> IsElement(p, r.value) && Solves(p, r.value.value, a, b)
    ensures r.Some? ==> forall e :: 0 <= e < r.value.value ==> !Solves(p, e, a, b)
    ensures r.None? <==> forall e :: 0 <= e < p ==> !Solves(p, e, a, b)
  {
    ScanFrom(p, a, b, 0)
  }

  /** The linear scan of `Element.__truediv__`, with its early return. */
  method Divide(p: int, a: Element, b: Element) returns (r: Option<Element>)
    requires p >= 2
    ensures r == Quotient(p, a, b)
    ensures r.Some? ==> IsElement(p, r.value) && Mul(p, r.value, b) == a
  {
    var e := 0;
    while e < p
      invariant 0 <= e <= p
      invariant ScanFrom(p, a, b, e) == Quotient(p, a, b)
    {
      if (e * b.value) % p == a.value {
        ModIsRemainder(e * b.value, p);
        r := Some(Element(e));
        return;
      }
      ModIsRemainder(e * b.value, p);
      e := e + 1;
    }
    r := None;
  }

  /** b has a multiplicative inverse: the source's `Element(1) / b` succeeds. */
  predicate IsUnit(p: int, b: Element)
    requires p >= 2
  {
    Quotient(p, One, b).Some?
  }

  /** `(a / b) * b == a` whenever b is invertible. */
  lemma {:induction false} QuotientTimesDivisor(p: int, a: Element, b: Element)
    requires p >= 2 && IsElement(p, a) && IsUnit(p, b)
    ensures Quotient(p, a, b).Some?
    ensures Mul(p, Quotient(p, a, b).value, b) == a
  {
    var inv := Quotient(p, One, b).value;
    var e := Mod(a.value * inv.value, p);
    UnitScales(p, a.value, inv.value, b.value);
    assert Solves(p, e, a, b);
    var q := Quotient(p, a, b);
    assert q.Some?;
    assert Mul(p, q.value, b).value == a.value;
  }

  /** If i * b is 1 then (a * i mod p) * b is a. */
  lemma UnitScales(p: int, a: int, i: int, b: int)
    requires p >= 2 && 0 <= a < p && Mod(i * b, p) == 1
    ensures Mod(Mod(a * i, p) * b, p) == a
  {
    MulCong(p, Mod(a * i, p), b, a * i, b);
    MulAssociates(a, i, b);
    assert Mod(1, p) == 1;
    MulCong(p, a, i * b, a, 1);
  }

  // Primes: every non-zero element is a unit.

  predicate Divides(d: int, n: int) {
    d > 0 && n % d == 0
  }

  predicate Prime(p: int) {
    p >= 2 && forall d :: 2 <= d < p ==> !Divides(d, p)
  }

  /** Extended Euclid: a common divisor of a and b that is a combination of them. */
  function ExtGcd(a: nat, b: nat): (r: (int, int, int))
    requires a > 0 || b > 0
    ensures Divides(r.0, a) && Divides(r.0, b)
    ensures a * r.1 + b * r.2 == r.0
    decreases b
  {
    if b == 0 then
      DivModUnique(a, a, 1, 0);
      (a, 1, 0)
    else
      var (g, x, y) := ExtGcd(b, a % b);
      ExtGcdStep(a, b, g, x, y);
      (g, y, x - (a / b) * y)
  }

  /** One step of Euclid: what holds of (b, a % b) carries back to (a, b). */
  lemma ExtGcdStep(a: nat, b: nat, g: int, x: int, y: int)
    requires b > 0 && Divides(g, b) && Divides(g, a % b) && b * x + (a % b) * y == g
    ensures Divides(g, a) && a * y + b * (x - (a / b) * y) == g
  {
    var k := a / b;
    assert a == k * b + a % b;
    assert a * y == k * b * y + (a % b) * y;
    assert b == (b / g) * g;
    assert a % b == ((a % b) / g) * g;
    assert a == (k * (b / g) + (a % b) / g) * g;
    DivModUnique(a, g, k * (b / g) + (a % b) / g, 0);
  }

  /** For prime p every non-zero element has an inverse. */
  lemma PrimeUnits(p: int, b: Element)
    requires Prime(p) && IsElement(p, b) && b.value != 0
    ensures IsUnit(p, b)
  {
    var (g, x, y) := ExtGcd(b.value, p);
    assert p == (p / g) * g;
    if p / g <= 0 {
      assert false;
    }
    MulAtLeast(p / g, g);
    if g == p {
      ModOfSmall(b.value, p);
      assert false;
    }
    if g >= 2 {
      assert false;
    }
    assert g == 1;
    var e := Mod(x, p);
    MulCong(p, e, b.value, x, b.value);
    assert x * b.value == 1 + (-y) * p;
    ModPlusMultiple(1, -y, p);
    assert Solves(p, e, One, b);
  }

  /** `a + complement(a) == 0`, and the complement of 0 is 0. */
  lemma AddComplementIsZero(p: int, a: Element)
    requires p >= 2 && IsElement(p, a)
    ensures Add(p, a, Complement(p, a)) == Zero
    ensures Complement(p, Zero) == Zero
  {
    ComplementResidue(p, 0);
  }

  /** `a - b == a + complement(b)`. */
  lemma SubIsAddComplement(p: int, a: Element, b: Element)
    requires p >= 2
    ensures Sub(p, a, b) == Add(p, a, Complement(p, b))
  {
  }

  lemma AddCommutes(p: int, a: Element, b: Element)
    requires p >= 2
    ensures Add(p, a, b) == Add(p, b, a)
  {
  }
}
