/** Weights as 64-bit fixed point numbers with three decimals. */
module FixedPoint {
  import opened Primitives
  import opened BigFloats
  import opened Decimals

  const MAX_INTEGRAL: nat := 18014398509481983

  datatype FixedError = TooBig | NotFixed | NotANumber

  lemma Limits()
    ensures Pow2(53) == 9007199254740992 && Pow2(54) == 18014398509481984
    ensures Pow2(64) == TWO_64 && Pow2(0) == 1
  {
    assert Pow2(10) == 1024;
    assert Pow2(20) == 1048576;
    assert Pow2(30) == 1073741824;
    assert Pow2(40) == 1099511627776;
    assert Pow2(50) == 1125899906842624;
    assert Pow2(60) == 1152921504606846976;
  }

  lemma SmallHalves()
    ensures Half(10) == 1.0 / 1024.0 && Half(11) == 1.0 / 2048.0 && Half(12) == 1.0 / 4096.0
    ensures Half(54) <= 1.0 / 1048576.0
  {
    assert Half(6) == 1.0 / 64.0;
    HalfShrinks(20, 54);
    assert Half(12) == 1.0 / 4096.0;
    assert Half(16) == 1.0 / 65536.0;
    assert Half(20) == 1.0 / 1048576.0;
  }

  lemma {:induction false} HalfShrinks(i: nat, j: nat)
    requires i <= j
    ensures Half(j) <= Half(i)
  {
    if i < j { HalfShrinks(i, j - 1); }
  }

  // ----- between fixed point and floats -----

  /** `FixedToBig`.  The integral part passes through a mantissa of 53 bits. */
  function ToBig(fixed: Uint64): (r: Result<real, FixedError>)
    ensures r.Ok? ==> r.value >= 0.0
  {
    if fixed > (MAX_INTEGRAL + 1) * 1000 then Err(NotFixed)
    else
      var integral := Round(Round((fixed / 1000) as real, 53), 64);
      var fractional := Round(Round((fixed % 1000) as real, 53) / 1000.0, 53);
      Ok(Round(integral + fractional, 64))
  }

  /** The format "%.3f". */
  function Print3(x: real): string
    requires x >= 0.0
  {
    var k := Thousandths(x);
    Digits(k / 1000) + "." + Filled(Digits(k % 1000), 3)
  }

  function Thousandths(x: real): nat
    requires x >= 0.0
  {
    NearestAtLeast(1000.0 * x, 0);
    Nearest(1000.0 * x)
  }

  function ParseUint(s: string): Option<Uint64> {
    if s == "" || !AllDigits(s) || Value(s) >= TWO_64 then None else Some(Value(s))
  }

  /** `BigToFixed`.  The limit is the float64 nearest to 2^54 - 1, which is 2^54. */
  function ToFixed(x: real): Result<Uint64, FixedError>
    requires x >= 0.0
  {
    if x > Round(MAX_INTEGRAL as real, 53) then Err(TooBig)
    else
      var parts := Split(Print3(x));
      if |parts| < 2 then Err(NotANumber)
      else match (ParseUint(parts[0]), ParseUint(parts[1]))
        case (Some(i), Some(f)) => Ok(Wrap(Wrap(i as int * 1000) as int + f))
        case _ => Err(NotANumber)
  }

  lemma LimitRoundsUp()
    ensures Round(MAX_INTEGRAL as real, 53) == 18014398509481984.0
  {
    hide Pow2;
    Limits();
    var h := MAX_INTEGRAL as real / 2.0;
    LargeStep(MAX_INTEGRAL as real, 53);
    assert RoundLarge(h, 53) == Nearest(h) as real;
    assert h.Floor == 9007199254740991;
  }

  /** A float within the limit becomes its number of thousandths, rounded to nearest. */
  lemma ToFixedIs(x: real)
    requires x >= 0.0
    ensures ToFixed(x) == if x > 18014398509481984.0 then Err(TooBig) else Ok(Thousandths(x))
  {
    hide Nearest, Round, Digits, Filled, Split, Value;
    LimitRoundsUp();
    if x <= 18014398509481984.0 {
      var k := Thousandths(x);
      assert k <= 18014398509481984001;
      ValueOfDigits(k / 1000);
      FilledFacts(k % 1000, 3);
      NoPointInDigits(Digits(k / 1000));
      NoPointInDigits(Filled(Digits(k % 1000), 3));
      SplitAtPoint(Digits(k / 1000), Filled(Digits(k % 1000), 3));
    }
  }

  /** Between 2^53 and 2^54 only even integral parts can be stored. */
  predicate Storable(q: nat) {
    q < 9007199254740992 || q % 2 == 0
  }

  /** The integral part after its passage through 53 bits. */
  lemma Integral(q: nat)
    requires q <= 18014398509481984
    ensures var r := Round(q as real, 53);
            && (Storable(q) ==> r == q as real)
            && (!Storable(q) ==> r == (q - 1) as real || r == (q + 1) as real)
            && r >= 0.0 && Round(r, 64) == r
  {
    hide Round, Pow2;
    Limits();
    if q < 9007199254740992 {
      FitsExactly(q, 53);
    } else if q < 18014398509481984 {
      OneBitTooLong(q, 53);
    } else {
      DoubleOfPower();
    }
    FitsExactly(q, 64);
    FitsExactly(q + 1, 64);
    if q > 0 { FitsExactly(q - 1, 64); }
  }

  lemma DoubleOfPower()
    ensures Round(18014398509481984.0, 53) == 18014398509481984.0
  {
    hide Pow2, RoundLarge, RoundSmall;
    Limits();
    LargeStep(18014398509481984.0, 53);
    FitsExactly(9007199254740992, 53);
  }

  /** The fractional part errs by at most 2^-54, so by less than a millionth. */
  lemma Fractional(m: nat)
    requires m < 1000
    ensures var f := Round(m as real, 53); f == m as real
    ensures var f := Round(m as real / 1000.0, 53);
            && -1.0 / 1048576.0 <= f - m as real / 1000.0 <= 1.0 / 1048576.0
            && f >= 0.0 && (m == 0 ==> f == 0.0)
  {
    hide Round, Pow2, Half;
    Limits();
    SmallHalves();
    FitsExactly(m, 53);
    RoundError(m as real / 1000.0, 53, 53);
    FitsExactly(0, 53);
  }

  /** The float of a fixed point number is the sum of its two parts, rounded to 64 bits. */
  lemma ToBigParts(fixed: Uint64) returns (r: nat, f: real)
    requires fixed <= 18014398509481984000
    ensures f >= 0.0 && ToBig(fixed) == Ok(Round(r as real + f, 64))
    ensures -1.0 / 1048576.0 <= f - (fixed % 1000) as real / 1000.0 <= 1.0 / 1048576.0
    ensures fixed % 1000 == 0 ==> f == 0.0
    ensures if Storable(fixed / 1000) then r == fixed / 1000 else r == fixed / 1000 - 1 || r == fixed / 1000 + 1
    ensures r <= 18014398509481984
  {
    hide Round;
    var q, m := fixed / 1000, fixed % 1000;
    Integral(q);
    Fractional(m);
    f := Round(m as real / 1000.0, 53);
    var rounded := Round(q as real, 53);
    r := if rounded == q as real then q else if rounded == (q - 1) as real then q - 1 else q + 1;
  }

  /** A float close enough to a number of thousandths prints as that number. */
  lemma PrintsAs(x: real, k: nat)
    requires x >= 0.0 && -0.0005 < x - k as real / 1000.0 < 0.0005
    ensures Thousandths(x) == k
  {
    NearestIs(1000.0 * x, k);
  }

  lemma Mantissa64(x: real, j: nat)
    requires 10 <= j <= 11 && 0.0 <= x <= Pow2(64 - j) as real
    ensures Round(x, 64) >= 0.0
    ensures -Half(j + 1) <= Round(x, 64) - x <= Half(j + 1)
  {
    RoundError(x, 64, j);
  }

  /** Round trip: a fixed point number survives the conversion to a float and back if and only if
      it is in range and its integral part is below 2^53 or even. */
  lemma FixedRoundTripIff(fixed: Uint64)
    ensures (ToBig(fixed).Ok? && ToBig(fixed).value >= 0.0 && ToFixed(ToBig(fixed).value) == Ok(fixed))
              <==> fixed <= 18014398509481984000 && Storable(fixed / 1000)
  {
    hide Round, Pow2, Half, ToFixed, Thousandths;
    if fixed <= 18014398509481984000 {
      Limits();
      SmallHalves();
      var q, m := fixed / 1000, fixed % 1000;
      var r, f := ToBigParts(fixed);
      var s := r as real + f;
      var x := Round(s, 64);
      ToFixedIs(x);
      assert fixed as real / 1000.0 == q as real + m as real / 1000.0;
      if Storable(q) {
        if m == 0 { FitsExactly(q, 64); } else { Mantissa64(s, 10); }
        PrintsAs(x, fixed);
      } else if x <= 18014398509481984.0 {
        OffByOne(fixed, r, f, x);
      }
    }
  }

  /** For one, 2^53 + 1 is within the limit and does not come back. */
  lemma OddIntegralIsLost()
    ensures var fixed: Uint64 := 9007199254740993000;
            fixed / 1000 <= MAX_INTEGRAL && ToBig(fixed).Ok? && ToFixed(ToBig(fixed).value) != Ok(fixed)
  {
    hide Round, ToFixed;
    FixedRoundTripIff(9007199254740993000);
  }

  lemma OffByOne(fixed: Uint64, r: nat, f: real, x: real)
    requires r == fixed / 1000 - 1 || r == fixed / 1000 + 1
    requires r <= 18014398509481984 && f >= 0.0 && x == Round(r as real + f, 64) >= 0.0
    requires -1.0 / 1048576.0 <= f - (fixed % 1000) as real / 1000.0 <= 1.0 / 1048576.0
    ensures Thousandths(x) != fixed
  {
    hide Round, Pow2, Half;
    Limits();
    SmallHalves();
    Pow2Of55();
    RoundError(r as real + f, 64, 9);
    assert fixed as real / 1000.0 == (fixed / 1000) as real + (fixed % 1000) as real / 1000.0;
  }

  lemma Pow2Of55()
    ensures Pow2(55) == 36028797018963968
  {
    Limits();
  }

  // ----- weights -----

  function BitLen(n: nat): nat {
    if n == 0 then 0 else 1 + BitLen(n / 2)
  }

  /** The number of binary digits. */
  lemma {:induction false} BitLenIs(n: nat)
    ensures if n == 0 then BitLen(n) == 0 else BitLen(n) > 0 && Pow2(BitLen(n) - 1) <= n < Pow2(BitLen(n))
  {
    if n > 1 { BitLenIs(n / 2); }
  }

  const ECV: nat := 2

  /** The inner term of the weight: both sums are rounded to 64 bits. */
  function InnerTerm(blocks: nat, power: nat): (r: real)
    ensures r >= 0.0
  {
    var product := Round(ECV as real, 64) * Round(blocks as real, 64);
    Round(Round(product, 64) + Round(BitLen(power) as real, 64), 64)
  }

  /** The arithmetic of `Weight` for a tipset other than genesis. */
  function WeightOf(parentWeight: Uint64, blocks: nat, power: nat): Result<Uint64, FixedError> {
    match ToBig(parentWeight)
    case Err(e) => Err(e)
    case Ok(w) => ToFixed(Round(w + InnerTerm(blocks, power), 64))
  }

  /** What a tipset adds to the weight, in whole units. */
  function Gain(blocks: nat, power: nat): nat {
    2 * blocks + BitLen(power)
  }

  lemma InnerTermIsExact(blocks: nat, power: nat)
    requires Gain(blocks, power) <= TWO_64
    ensures InnerTerm(blocks, power) == Gain(blocks, power) as real
  {
    hide Round, Pow2;
    Limits();
    FitsExactly(blocks, 64);
    FitsExactly(2, 64);
    FitsExactly(2 * blocks, 64);
    FitsExactly(BitLen(power), 64);
    FitsExactly(Gain(blocks, power), 64);
    assert 2.0 * (blocks as real) == (2 * blocks) as real;
  }

  /** Exactness: while integral parts stay below 2^53, whatever the decimals of the parent's
      weight, the two rounded sums and the quotient together err by less than half a thousandth,
      so the weight is exactly the parent's plus 1000 * (2 * blocks + bits of the power). */
  lemma WeightIsExact(parentWeight: Uint64, blocks: nat, power: nat)
    requires parentWeight / 1000 + Gain(blocks, power) < 9007199254740992
    ensures WeightOf(parentWeight, blocks, power) == Ok(parentWeight + 1000 * Gain(blocks, power))
  {
    hide Round, Pow2, Half, InnerTerm, ToBig, ToFixed, Thousandths;
    Limits();
    SmallHalves();
    InnerTermIsExact(blocks, power);
    var q, m, g := parentWeight / 1000, parentWeight % 1000, Gain(blocks, power);
    var r, f := ToBigParts(parentWeight);
    Mantissa64(q as real + f, 11);
    var w := Round(q as real + f, 64);
    var x := Round(w + g as real, 64);
    Mantissa64(w + g as real, 11);
    ToFixedIs(x);
    assert (parentWeight + 1000 * g) as real / 1000.0 == q as real + m as real / 1000.0 + g as real;
    PrintsAs(x, parentWeight + 1000 * g);
  }

  lemma InnerTermIsLarge(blocks: nat, power: nat)
    requires blocks < TWO_63 && BitLen(power) < TWO_63 && Gain(blocks, power) >= TWO_64
    ensures InnerTerm(blocks, power) >= TWO_64 as real
  {
    hide Round, Pow2, RoundLarge, RoundSmall;
    Limits();
    FitsExactly(blocks, 64);
    FitsExactly(2, 64);
    FitsExactly(2 * blocks, 64);
    FitsExactly(BitLen(power), 64);
    assert 2.0 * (blocks as real) == (2 * blocks) as real;
    LargeRound(Gain(blocks, power) as real);
  }

  lemma LargeRound(x: real)
    requires x >= TWO_64 as real
    ensures Round(x, 64) >= TWO_64 as real
  {
    hide Pow2, RoundLarge;
    Limits();
    StaysLarge(x, 64);
  }

  /** For a parent weight without decimals, which is every weight that grew from genesis, the
      weight is exact if and only if the parent's integral part can be stored and the result is
      at most 2^54. */
  lemma WholeWeightIff(parentWeight: Uint64, blocks: nat, power: nat)
    requires parentWeight % 1000 == 0
    requires blocks < TWO_63 && BitLen(power) < TWO_63
    ensures var w := WeightOf(parentWeight, blocks, power);
            (w.Ok? && w.value == parentWeight as int + 1000 * Gain(blocks, power))
              <==> Storable(parentWeight / 1000) && parentWeight / 1000 + Gain(blocks, power) <= 18014398509481984
  {
    hide Round, Pow2, InnerTerm, ToFixed, Thousandths, BitLen;
    var q, g := parentWeight / 1000, Gain(blocks, power);
    if parentWeight <= 18014398509481984000 {
      Limits();
      var r, f := ToBigParts(parentWeight);
      FitsExactly(r, 64);
      var inner := InnerTerm(blocks, power);
      var x := Round(r as real + inner, 64);
      ToFixedIs(x);
      if g < TWO_64 { InnerTermIsExact(blocks, power); } else { InnerTermIsLarge(blocks, power); }
      if r + g <= TWO_64 && g < TWO_64 {
        FitsExactly(r + g, 64);
        assert x == (r + g) as real;
        PrintsAs(x, 1000 * (r + g));
      } else {
        LargeRound(r as real + inner);
      }
    }
  }

  /** A tipset on a chain: how many blocks it has and the power in its parent state. */
  datatype Link = Link(blocks: nat, power: nat)

  function TotalGain(links: seq<Link>): nat {
    if links == [] then 0
    else TotalGain(links[..|links| - 1]) + Gain(links[|links| - 1].blocks, links[|links| - 1].power)
  }

  /** The weight at the end of a chain of links on genesis, each block naming the weight of its
      parent tipset. */
  function ChainWeight(links: seq<Link>): Result<Uint64, FixedError> {
    if links == [] then Ok(0)
    else
      match ChainWeight(links[..|links| - 1])
      case Err(e) => Err(e)
      case Ok(w) => WeightOf(w, links[|links| - 1].blocks, links[|links| - 1].power)
  }

  lemma {:induction false} ChainWeightIs(links: seq<Link>)
    requires TotalGain(links) < 9007199254740992
    ensures ChainWeight(links) == Ok(1000 * TotalGain(links))
  {
    hide WeightOf, Gain;
    if links != [] {
      var init, last := links[..|links| - 1], links[|links| - 1];
      ChainWeightIs(init);
      WeightIsExact(1000 * TotalGain(init), last.blocks, last.power);
    }
  }

  /** Numbers of a Go int. */
  predicate Countable(blocks: nat, power: nat) {
    blocks < TWO_63 && BitLen(power) < TWO_63
  }

  lemma RoundAtLeast(y: real)
    requires y >= 0.0
    ensures Round(y, 64) >= if y < TWO_64 as real then y - 0.5 else TWO_64 as real
  {
    hide Pow2, Half, RoundLarge, RoundSmall;
    Limits();
    Pow2Of63();
    if y >= TWO_64 as real {
      LargeRound(y);
    } else if y > 9223372036854775808.0 {
      InRange(y);
    } else {
      RoundError(y, 64, 1);
    }
  }

  lemma InRange(y: real)
    requires 9223372036854775808.0 <= y < TWO_64 as real
    ensures Round(y, 64) >= y - 0.5
  {
    hide Pow2;
    Limits();
    Pow2Of63();
  }

  lemma Pow2Of63()
    ensures Pow2(63) == TWO_63 && Half(2) == 0.25
  {
    Limits();
    assert Pow2(64) == 2 * Pow2(63);
    assert Half(1) == 0.5;
  }

  /** Weight strictly grows with every tipset that can be weighed: beyond 2^53 the parent's weight may
      lose one unit to rounding, but a tipset adds two at least. */
  lemma WeightAlwaysGrows(parentWeight: Uint64, blocks: nat, power: nat)
    requires blocks > 0 && Countable(blocks, power) && WeightOf(parentWeight, blocks, power).Ok?
    ensures WeightOf(parentWeight, blocks, power).value > parentWeight
  {
    hide Round, Pow2, Half, InnerTerm, ToFixed, Thousandths, BitLen;
    Limits();
    SmallHalves();
    Pow2Of55();
    var g, m := Gain(blocks, power), parentWeight % 1000;
    var r, f := ToBigParts(parentWeight);
    RoundError(r as real + f, 64, 9);
    var w := Round(r as real + f, 64);
    if g < TWO_64 { InnerTermIsExact(blocks, power); } else { InnerTermIsLarge(blocks, power); }
    var y := w + InnerTerm(blocks, power);
    RoundAtLeast(y);
    ToFixedIs(Round(y, 64));
    assert parentWeight as real / 1000.0 == (parentWeight / 1000) as real + m as real / 1000.0;
    assert Round(y, 64) >= parentWeight as real / 1000.0 + 0.4;
    PrintsAbove(Round(y, 64), parentWeight);
  }

  lemma PrintsAbove(x: real, k: nat)
    requires x >= k as real / 1000.0 + 0.4
    ensures Thousandths(x) > k
  {
  }

  /** Weight strictly grows along every chain that can be weighed: a longer chain outweighs each of its
      prefixes. */
  lemma {:induction false} WeightGrows(links: seq<Link>, k: nat)
    requires k < |links| && ChainWeight(links).Ok?
    requires forall i | 0 <= i < |links| :: links[i].blocks > 0 && Countable(links[i].blocks, links[i].power)
    ensures ChainWeight(links[..k]).Ok? && ChainWeight(links[..k]).value < ChainWeight(links).value
  {
    hide WeightOf, Countable;
    var init, last := links[..|links| - 1], links[|links| - 1];
    WeightAlwaysGrows(ChainWeight(init).value, last.blocks, last.power);
    if k < |init| {
      WeightGrows(init, k);
      assert init[..k] == links[..k];
    }
  }

  // ----- the operations -----

  method FixedToBig(fixed: Uint64) returns (r: Result<BigFloat, FixedError>)
    ensures match ToBig(fixed)
            case Err(e) => r == Err(e)
            case Ok(x) => r.Ok? && fresh(r.value) && r.value.Valid() && r.value.prec == 64 && r.value.value == x
  {
    hide Round;
    if fixed > (MAX_INTEGRAL + 1) * 1000 { return Err(NotFixed); }
    var integral := new BigFloat.New(0);
    integral.SetInt64(fixed / 1000);
    integral.SetPrec(64);
    var fractional := new BigFloat.New(0);
    fractional.SetInt64(fixed % 1000);
    var divF := new BigFloat.New(1000);
    fractional.Quo(fractional, divF);
    integral.Add(integral, fractional);
    r := Ok(integral);
  }

  method BigToFixed(f: BigFloat) returns (r: Result<Uint64, FixedError>)
    requires f.Valid()
    ensures r == ToFixed(f.value)
  {
    hide Round, Print3, Split, ParseUint;
    var limit := new BigFloat.New(0);
    limit.SetInt64(MAX_INTEGRAL);
    if f.value > limit.value { return Err(TooBig); }
    var parts := Split(Print3(f.value));
    if |parts| < 2 { return Err(NotANumber); }
    var integral := ParseUint(parts[0]);
    if integral.None? { return Err(NotANumber); }
    var fractional := ParseUint(parts[1]);
    if fractional.None? { return Err(NotANumber); }
    var fixed := Wrap(integral.value as int * 1000);
    fixed := Wrap(fixed as int + fractional.value);
    r := Ok(fixed);
  }

  /** The float arithmetic of `ChainSelector.Weight`. */
  method Weigh(parentWeight: Uint64, blocks: nat, power: nat) returns (r: Result<Uint64, FixedError>)
    ensures r == WeightOf(parentWeight, blocks, power)
  {
    hide Round, ToBig, ToFixed, BitLen;
    var parent := FixedToBig(parentWeight);
    if parent.Err? { return Err(parent.error); }
    var w := parent.value;
    var innerTerm := new BigFloat();
    var floatECV := new BigFloat();
    floatECV.SetInt64(ECV);
    var floatNumBlocks := new BigFloat();
    floatNumBlocks.SetInt64(blocks);
    assert floatECV.value == Round(ECV as real, 64);
    assert floatNumBlocks.value == Round(blocks as real, 64);
    ghost var product := floatECV.value * floatNumBlocks.value;
    assert product == Round(ECV as real, 64) * Round(blocks as real, 64);
    innerTerm.Mul(floatECV, floatNumBlocks);
    assert product >= 0.0;
    assert innerTerm.prec == 64 && innerTerm.value == Round(product, 64);
    var roughLogTotalBytes := new BigFloat();
    roughLogTotalBytes.SetInt64(BitLen(power));
    innerTerm.Add(innerTerm, roughLogTotalBytes);
    assert innerTerm.value == InnerTerm(blocks, power);
    w.Add(w, innerTerm);
    r := BigToFixed(w);
  }
}
