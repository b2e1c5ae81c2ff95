/** `decimal_to_base_n` of util/util.py: the base-n digits of a non-negative
    integer, most-significant first. The loop collects the digits from the
    least significant one and the list is reversed at the end; a negative
    input fails the function's assertion, which is `None` here. */
module BaseN {
  import opened Wrappers
  import opened ModArith

  /** The base-n digits of x, most-significant first; none for 0. */
  function Digits(x: nat, n: int): (ds: seq<int>)
    requires n >= 2
    ensures forall i :: 0 <= i < |ds| ==> 0 <= ds[i] < n
    ensures x > 0 ==> |ds| >= 1 && ds[0] != 0
    decreases x
  {
    if x == 0 then [] else DivShrinks(x, n); Digits(x / n, n) + [x % n]
  }

  /** What `decimal_to_base_n(x, n)` returns. */
  function ToBaseN(x: int, n: int): (r: Option<seq<int>>)
    requires n >= 2
    ensures r.None? <==> x < 0
    ensures r.Some? ==> |r.value| >= 1 && forall i :: 0 <= i < |r.value| ==> 0 <= r.value[i] < n
    ensures r.Some? && r.value[0] == 0 ==> x == 0 && r.value == [0]
  {
    if x < 0 then None
    else if x == 0 then Some([0])
    else Some(Digits(x, n))
  }

  /** Horner evaluation of digits, most-significant first. */
  function Eval(ds: seq<int>, n: int): int {
    if ds == [] then 0 else Eval(ds[..|ds| - 1], n) * n + ds[|ds| - 1]
  }

  function Reverse(s: seq<int>): (r: seq<int>)
    ensures |r| == |s|
  {
    seq(|s|, i requires 0 <= i < |s| => s[|s| - 1 - i])
  }

  /** The loop, then `base_n.reverse()`. */
  method DecimalToBaseN(x: int, n: int) returns (r: Option<seq<int>>)
    requires n >= 2
    ensures r == ToBaseN(x, n)
  {
    if x < 0 {
      return None;
    }
    if x == 0 {
      return Some([0]);
    }
    var digits: seq<int> := [];
    var y := x;
    while y > 0
      invariant 0 <= y
      invariant Digits(y, n) + Reverse(digits) == Digits(x, n)
      decreases y
    {
      DivShrinks(y, n);
      CollectDigit(y, n, digits);
      digits := digits + [y % n];
      y := y / n;
    }
    assert Digits(y, n) == [];
    assert [] + Reverse(digits) == Reverse(digits);
    r := Some(Reverse(digits));
  }

  /** Moving the lowest digit of y to the collected, reversed digits keeps
      the concatenation unchanged. */
  lemma CollectDigit(y: nat, n: int, digits: seq<int>)
    requires n >= 2 && y > 0
    ensures Digits(y, n) + Reverse(digits) == Digits(y / n, n) + Reverse(digits + [y % n])
  {
    var d := y % n;
    assert Reverse(digits + [d]) == [d] + Reverse(digits);
    assert Digits(y, n) == Digits(y / n, n) + [d];
    assert Digits(y / n, n) + [d] + Reverse(digits) == Digits(y / n, n) + ([d] + Reverse(digits));
  }

  /** Evaluating the digits gives back x. */
  lemma {:induction false} DigitsRoundTrip(x: nat, n: int)
    requires n >= 2
    ensures Eval(Digits(x, n), n) == x
    decreases x
  {
    if x > 0 {
      var q, d := x / n, x % n;
      DivShrinks(x, n);
      var ds := Digits(x, n);
      assert ds == Digits(q, n) + [d];
      assert ds[..|ds| - 1] == Digits(q, n);
      assert Eval(ds, n) == Eval(Digits(q, n), n) * n + d;
      DigitsRoundTrip(q, n);
    }
  }

  /** One step of the loop: x is x / n digits shifted up, plus x % n. */
  lemma DivShrinks(x: nat, n: int)
    requires n >= 2 && x > 0
    ensures 0 <= x / n < x && (x / n) * n + x % n == x
  {
    var q := x / n;
    if q >= x {
      MulAtLeast(q, n);
      assert q * n >= x * 2 by { MulMonotone(q, x, n); }
      assert false;
    }
  }

  lemma MulMonotone(a: int, b: int, n: int)
    requires a >= b >= 0 && n >= 2
    ensures a * n >= b * 2
  {
  }

  /** The encoding of every non-negative x evaluates back to x. */
  lemma ToBaseNRoundTrip(x: int, n: int)
    requires n >= 2 && x >= 0
    ensures ToBaseN(x, n).Some? && Eval(ToBaseN(x, n).value, n) == x
  {
    if x > 0 {
      DigitsRoundTrip(x, n);
    } else {
      assert Eval([0], n) == Eval([], n) * n + 0;
    }
  }

  /** A digit list in range with a non-zero leading digit is positive. */
  lemma {:induction false} EvalPositive(ds: seq<int>, n: int)
    requires n >= 2 && |ds| >= 1 && ds[0] != 0
    requires forall i :: 0 <= i < |ds| ==> 0 <= ds[i] < n
    ensures Eval(ds, n) >= 1
    decreases |ds|
  {
    if |ds| > 1 {
      var init := ds[..|ds| - 1];
      EvalPositive(init, n);
      MulAtLeast(Eval(init, n), n);
    }
  }

  /** The other round trip: digits in range without a leading zero are the
      encoding of their value. */
  lemma {:induction false} EvalDigits(ds: seq<int>, n: int)
    requires n >= 2 && (ds == [] || ds[0] != 0)
    requires forall i :: 0 <= i < |ds| ==> 0 <= ds[i] < n
    ensures Eval(ds, n) >= 0 && Digits(Eval(ds, n), n) == ds
    decreases |ds|
  {
    if ds != [] {
      var init, last := ds[..|ds| - 1], ds[|ds| - 1];
      EvalDigits(init, n);
      EvalPositive(ds, n);
      var v := Eval(init, n);
      DivModUnique(Eval(ds, n), n, v, last);
      assert Digits(Eval(ds, n), n) == Digits(v, n) + [last];
      assert init + [last] == ds;
    }
  }
}
