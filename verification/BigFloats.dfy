/** `big.Float` as far as chain weights need it: nonnegative numbers rounded to a mantissa of a
    given number of bits, to nearest and ties to even. */
module BigFloats {
  import opened Primitives

  /** 2^-k. */
  function Half(k: nat): (r: real)
    ensures r > 0.0
  {
    if k == 0 then 1.0 else Half(k - 1) / 2.0
  }

  /** The nearest integer, the even one of two. */
  function Nearest(x: real): (n: int)
    ensures -0.5 <= n as real - x <= 0.5
    ensures x >= 0.0 ==> n >= 0
  {
    var f := x.Floor;
    var d := x - f as real;
    if d < 0.5 then f
    else if d > 0.5 then f + 1
    else if f % 2 == 0 then f
    else f + 1
  }

  /** Half way between two integers the even one is taken. */
  lemma TiesGoToEven(n: int)
    ensures var r := Nearest(n as real + 0.5); r % 2 == 0 && (r == n || r == n + 1)
  {
  }

  /** Rounds to `p` bits: scale into [2^(p-1), 2^p), take the nearest integer, scale back. */
  function Round(x: real, p: nat): (r: real)
    requires x >= 0.0 && p > 0
    ensures r >= 0.0
  {
    if x == 0.0 then 0.0
    else if x >= Pow2(p) as real then RoundLarge(x, p)
    else RoundSmall(x, p)
  }

  function RoundLarge(x: real, p: nat): (r: real)
    requires x > 0.0 && p > 0
    ensures r >= 0.0
    decreases x.Floor
  {
    if x >= Pow2(p) as real then 2.0 * RoundLarge(x / 2.0, p) else Nearest(x) as real
  }

  function RoundSmall(x: real, p: nat): (r: real)
    requires x > 0.0 && p > 0
    ensures r >= 0.0
    decreases (Pow2(p - 1) as real / x).Floor
  {
    if x < Pow2(p - 1) as real then
      Halving(Pow2(p - 1) as real, x);
      RoundSmall(2.0 * x, p) / 2.0
    else Nearest(x) as real
  }

  lemma Halving(top: real, x: real)
    requires 0.0 < x < top
    ensures 0 <= (top / (2.0 * x)).Floor < (top / x).Floor
  {
    var v := top / x;
    assert v * x == top;
    assert v > 1.0;
    assert top / (2.0 * x) == v / 2.0;
  }

  lemma NearestIs(x: real, n: int)
    requires -0.5 < n as real - x < 0.5
    ensures Nearest(x) == n
  {
  }

  /** Rounding to `p` bits errs by at most half a unit in the last place. */
  lemma {:induction false} SmallError(x: real, p: nat, j: nat)
    requires p > 0 && j <= p && 0.0 < x <= Pow2(p - j) as real
    ensures -Half(j + 1) <= RoundSmall(x, p) - x <= Half(j + 1)
    decreases j, (Pow2(p - 1) as real / x).Floor
  {
    if x < Pow2(p - 1) as real {
      Halving(Pow2(p - 1) as real, x);
      if j == 0 {
        SmallError(2.0 * x, p, 0);
      } else {
        SmallError(2.0 * x, p, j - 1);
      }
    } else if j > 0 {
      if j > 1 { Pow2Grows(p - j, p - 2); }
      NearestIs(x, Pow2(p - 1));
    }
  }

  lemma RoundError(x: real, p: nat, j: nat)
    requires 0 < j <= p && 0.0 <= x <= Pow2(p - j) as real
    ensures -Half(j + 1) <= Round(x, p) - x <= Half(j + 1)
  {
    Pow2Grows(p - j, p - 1);
    if x > 0.0 { SmallError(x, p, j); }
  }

  lemma {:induction false} SmallIsExact(n: nat, p: nat)
    requires p > 0 && 0 < n < Pow2(p)
    ensures RoundSmall(n as real, p) == n as real
    decreases Pow2(p) - n
  {
    if n < Pow2(p - 1) {
      SmallIsExact(2 * n, p);
      assert 2.0 * (n as real) == (2 * n) as real;
    } else {
      NearestIs(n as real, n);
    }
  }

  /** An integer that fits the mantissa is not changed. */
  lemma FitsExactly(n: nat, p: nat)
    requires p > 0 && n <= Pow2(p)
    ensures Round(n as real, p) == n as real
  {
    if n == Pow2(p) {
      var h := Pow2(p - 1) as real;
      assert n as real / 2.0 == h;
      LargeStep(n as real, p);
      assert RoundLarge(h, p) == Nearest(h) as real;
      NearestIs(h, Pow2(p - 1));
    } else if n > 0 {
      SmallIsExact(n, p);
    }
  }

  /** An integer one bit too long is changed exactly if it is odd, and then by one. */
  lemma OneBitTooLong(n: nat, p: nat)
    requires p > 0 && Pow2(p) <= n < Pow2(p + 1)
    ensures n % 2 == 0 ==> Round(n as real, p) == n as real
    ensures n % 2 == 1 ==> Round(n as real, p) == (n - 1) as real || Round(n as real, p) == (n + 1) as real
  {
    var h := n as real / 2.0;
    assert Round(n as real, p) == 2.0 * RoundLarge(h, p);
    assert RoundLarge(h, p) == Nearest(h) as real;
    var k := n / 2;
    if n % 2 == 0 {
      assert h == k as real;
      NearestIs(h, k);
    } else {
      assert h == k as real + 0.5;
      assert Nearest(h) == k || Nearest(h) == k + 1;
    }
  }

  /** A number too long for the mantissa stays so. */
  lemma {:induction false} StaysLarge(x: real, p: nat)
    requires p > 0 && x >= Pow2(p) as real
    ensures RoundLarge(x, p) >= Pow2(p) as real
    decreases x.Floor
  {
    hide RoundLarge;
    LargeStep(x, p);
    if x / 2.0 >= Pow2(p) as real { StaysLarge(x / 2.0, p); } else { LastStep(x / 2.0, p); }
  }

  lemma LargeStep(x: real, p: nat)
    requires p > 0 && x >= Pow2(p) as real
    ensures RoundLarge(x, p) == 2.0 * RoundLarge(x / 2.0, p)
    ensures (x / 2.0).Floor < x.Floor
  {
  }

  lemma LastStep(x: real, p: nat)
    requires p > 0 && Pow2(p - 1) as real <= x < Pow2(p) as real
    ensures RoundLarge(x, p) >= Pow2(p - 1) as real
  {
    hide Nearest, Pow2;
    NearestAtLeast(x, Pow2(p - 1));
    assert RoundLarge(x, p) == Nearest(x) as real;
  }

  lemma NearestAtLeast(x: real, n: int)
    requires n as real <= x
    ensures n <= Nearest(x)
  {
  }

  class BigFloat {
    var value: real
    var prec: nat

    ghost predicate Valid()
      reads this
    {
      value >= 0.0
    }

    /** `new(big.Float)`. */
    constructor ()
      ensures Valid() && value == 0.0 && prec == 0
    {
      value, prec := 0.0, 0;
    }

    /** `big.NewFloat` of a nonnegative machine integer that 53 bits hold. */
    constructor New(n: nat)
      ensures Valid() && value == n as real && prec == 53
    {
      value, prec := n as real, 53;
    }

    method SetInt64(n: nat)
      modifies this
      ensures prec == if old(prec) == 0 then 64 else old(prec)
      ensures Valid() && value == Round(n as real, prec)
    {
      if prec == 0 { prec := 64; }
      value := Round(n as real, prec);
    }

    method SetPrec(p: nat)
      requires Valid() && p > 0
      modifies this
      ensures Valid() && prec == p && value == Round(old(value), p)
    {
      prec := p;
      value := Round(value, p);
    }

    /** The receiver takes the larger precision of its operands if it has none. */
    method Set(exact: real, x: BigFloat, y: BigFloat)
      requires exact >= 0.0 && x.prec > 0
      modifies this
      ensures prec == if old(prec) != 0 then old(prec)
                      else if old(x.prec) < old(y.prec) then old(y.prec) else old(x.prec)
      ensures Valid() && value == Round(exact, prec)
    {
      if prec == 0 { prec := if x.prec < y.prec then y.prec else x.prec; }
      value := Round(exact, prec);
    }

    method Add(x: BigFloat, y: BigFloat)
      requires x.Valid() && y.Valid() && x.prec > 0
      modifies this
      ensures prec == if old(prec) != 0 then old(prec)
                      else if old(x.prec) < old(y.prec) then old(y.prec) else old(x.prec)
      ensures Valid() && value == Round(old(x.value) + old(y.value), prec)
    {
      Set(x.value + y.value, x, y);
    }

    method Mul(x: BigFloat, y: BigFloat)
      requires x.Valid() && y.Valid() && x.prec > 0
      modifies this
      ensures prec == if old(prec) != 0 then old(prec)
                      else if old(x.prec) < old(y.prec) then old(y.prec) else old(x.prec)
      ensures old(x.value) * old(y.value) >= 0.0
      ensures Valid() && value == Round(old(x.value) * old(y.value), prec)
    {
      Set(x.value * y.value, x, y);
    }

    method Quo(x: BigFloat, y: BigFloat)
      requires x.Valid() && y.Valid() && y.value > 0.0 && x.prec > 0
      modifies this
      ensures prec == if old(prec) != 0 then old(prec)
                      else if old(x.prec) < old(y.prec) then old(y.prec) else old(x.prec)
      ensures old(x.value) / old(y.value) >= 0.0
      ensures Valid() && value == Round(old(x.value) / old(y.value), prec)
    {
      QuotientIsNonnegative(x.value, y.value);
      Set(x.value / y.value, x, y);
    }
  }

  lemma QuotientIsNonnegative(x: real, y: real)
    requires x >= 0.0 && y > 0.0
    ensures x / y >= 0.0
  {
  }
}
