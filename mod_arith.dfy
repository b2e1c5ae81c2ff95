/** Python's `x % p` for a positive modulus, and the facts about it that every
    layer above relies on. Python's `%` and Dafny's agree for a positive
    divisor (both return the remainder in [0, p)); `Mod` computes the same
    value by repeated subtraction (`ModIsRemainder`), so that the rest of the
    model can state congruences without handing the solver a non-linear
    `%` at every step. */
module ModArith {

  /** `x % p` for p > 0. */
  function Mod(x: int, p: int): (r: int)
    requires p > 0
    ensures 0 <= r < p
    decreases if x < 0 then p - x else x
  {
    if 0 <= x < p then x
    else if x >= p then Mod(x - p, p)
    else Mod(x + p, p)
  }

  lemma {:induction false} ModIsRemainder(x: int, p: int)
    requires p > 0
    ensures Mod(x, p) == x % p
    decreases if x < 0 then p - x else x
  {
    if 0 <= x < p {
      ModOfSmall(x, p);
    } else if x >= p {
      ModIsRemainder(x - p, p);
      ModAddMultiple(x - p, 1, p);
    } else {
      ModIsRemainder(x + p, p);
      ModAddMultiple(x, 1, p);
    }
  }

  /** Adding a multiple of p does not change the residue. */
  lemma ModPlusMultiple(x: int, k: int, p: int)
    requires p > 0
    ensures Mod(x + k * p, p) == Mod(x, p)
  {
    ModIsRemainder(x + k * p, p);
    ModIsRemainder(x, p);
    ModAddMultiple(x, k, p);
  }

  lemma ModOfMod(x: int, p: int)
    requires p > 0
    ensures Mod(Mod(x, p), p) == Mod(x, p)
  {
  }

  /** Congruence is preserved by addition. */
  lemma AddCong(p: int, a: int, b: int, c: int, d: int)
    requires p > 0 && Mod(a, p) == Mod(c, p) && Mod(b, p) == Mod(d, p)
    ensures Mod(a + b, p) == Mod(c + d, p)
  {
    ModIsRemainder(a, p); ModIsRemainder(b, p); ModIsRemainder(c, p); ModIsRemainder(d, p);
    ModIsRemainder(a + b, p); ModIsRemainder(c + d, p);
    ModAddCong(p, a, b, c, d);
  }

  /** Congruence is preserved by multiplication. */
  lemma MulCong(p: int, a: int, b: int, c: int, d: int)
    requires p > 0 && Mod(a, p) == Mod(c, p) && Mod(b, p) == Mod(d, p)
    ensures Mod(a * b, p) == Mod(c * d, p)
  {
    ModIsRemainder(a, p); ModIsRemainder(b, p); ModIsRemainder(c, p); ModIsRemainder(d, p);
    ModIsRemainder(a * b, p); ModIsRemainder(c * d, p);
    ModMulCong(p, a, b, c, d);
  }

  /** Addition mod p associates: with x the residue of a + b and y that of
      b + c, x + c and a + y have the same residue. */
  lemma ModAddAssociates(p: int, a: int, b: int, c: int, x: int, y: int)
    requires p > 0 && x == Mod(a + b, p) && y == Mod(b + c, p)
    ensures Mod(x + c, p) == Mod(a + y, p)
  {
    AddCong(p, x, c, a + b, c);
    AddCong(p, a, y, a, b + c);
  }

  /** `Mod(p - b, p)` stands for `-b`. */
  lemma NegCong(p: int, b: int)
    requires p > 0
    ensures Mod(p - b, p) == Mod(-b, p)
  {
    ModPlusMultiple(-b, 1, p);
  }

  /** The negation of a non-zero residue x is p - x, again non-zero. */
  lemma NegOfNonZero(p: int, x: int)
    requires 0 < x < p
    ensures Mod(-x, p) == p - x
  {
    ModPlusMultiple(-x, 1, p);
  }

  /** Congruence is preserved by subtraction. */
  lemma SubCong(p: int, a: int, b: int, c: int, d: int)
    requires p > 0 && Mod(a, p) == Mod(c, p) && Mod(b, p) == Mod(d, p)
    ensures Mod(a - b, p) == Mod(c - d, p)
  {
    MulCong(p, -1, b, -1, d);
    AddCong(p, a, -1 * b, c, -1 * d);
  }

  /** Subtracting the residue of y from z and adding y back gives z again,
      modulo p, inside any sum x + ... + u. */
  lemma ModCancelScaled(p: int, x: int, y: int, z: int, u: int)
    requires p > 0
    ensures Mod((x + y) + Mod(z - Mod(y, p), p) + u, p) == Mod(x + z + u, p)
  {
    var m := Mod(z - Mod(y, p), p);
    SubCong(p, z, Mod(y, p), z, y);
    AddCong(p, (x + y) + u, m, (x + y) + u, z - y);
    assert (x + y) + m + u == ((x + y) + u) + m;
    assert ((x + y) + u) + (z - y) == x + z + u;
  }

  lemma MulAssociates(a: int, b: int, c: int)
    ensures (a * b) * c == a * (b * c)
  {
  }

  // Facts about Dafny's own `/` and `%`, used to prove the ones above.

  /** Division with remainder is unique. */
  lemma DivModUnique(x: int, p: int, q: int, r: int)
    requires p > 0 && 0 <= r < p && x == q * p + r
    ensures x / p == q && x % p == r
  {
    var q0, r0 := x / p, x % p;
    assert (q - q0) * p == r0 - r;
    if q - q0 >= 1 {
      MulAtLeast(q - q0, p);
      assert false;
    } else if q - q0 <= -1 {
      MulAtLeast(q0 - q, p);
      assert false;
    }
  }

  lemma MulAtLeast(a: int, p: int)
    requires a >= 1 && p > 0
    ensures a * p >= p
  {
  }

  lemma ModOfSmall(x: int, p: int)
    requires 0 <= x < p
    ensures x % p == x
  {
    DivModUnique(x, p, 0, x);
  }

  /** Adding a multiple of the modulus does not change the residue. */
  lemma ModAddMultiple(x: int, k: int, p: int)
    requires p > 0
    ensures (x + k * p) % p == x % p
  {
    DivModUnique(x + k * p, p, x / p + k, x % p);
  }

  lemma ModMod(x: int, p: int)
    requires p > 0
    ensures (x % p) % p == x % p
  {
    ModOfSmall(x % p, p);
  }

  /** Residues of a sum depend only on the residues of the summands. */
  lemma ModAddCong(p: int, a: int, b: int, c: int, d: int)
    requires p > 0 && a % p == c % p && b % p == d % p
    ensures (a + b) % p == (c + d) % p
  {
    ModAddResidues(p, a, b);
    ModAddResidues(p, c, d);
  }

  lemma ModAddResidues(p: int, a: int, b: int)
    requires p > 0
    ensures (a + b) % p == ((a % p) + (b % p)) % p
  {
    var qa, ra, qb, rb := a / p, a % p, b / p, b % p;
    assert a + b == (ra + rb) + (qa + qb) * p;
    ModAddMultiple(ra + rb, qa + qb, p);
  }

  /** Residues of a product depend only on the residues of the factors. */
  lemma ModMulCong(p: int, a: int, b: int, c: int, d: int)
    requires p > 0 && a % p == c % p && b % p == d % p
    ensures (a * b) % p == (c * d) % p
  {
    ModMulResidues(p, a, b);
    ModMulResidues(p, c, d);
  }

  lemma ModMulResidues(p: int, a: int, b: int)
    requires p > 0
    ensures (a * b) % p == ((a % p) * (b % p)) % p
  {
    var qa, ra, qb, rb := a / p, a % p, b / p, b % p;
    calc {
      a * b;
      (qa * p + ra) * (qb * p + rb);
      ra * rb + (qa * qb * p + qa * rb + ra * qb) * p;
    }
    ModAddMultiple(ra * rb, qa * qb * p + qa * rb + ra * qb, p);
  }

  /** `(p - b) % p` stands for `-b`: it is the complement used by subtraction. */
  lemma ModComplement(p: int, a: int, b: int)
    requires p > 0
    ensures (a + (p - b) % p) % p == (a - b) % p
  {
    ModMod(p - b, p);
    ModAddMultiple(-b, 1, p);
    ModAddCong(p, a, (p - b) % p, a, -b);
  }
}
