/** Amounts of money: printing and reading FIL as decimal fractions of attoFIL. */
module AttoFil {
  import opened Primitives
  import opened Decimals

  const ATTO_POWER: nat := 18

  /** `big.Int.SetString` in base ten: an optional sign and at least one digit. */
  function ParseInt(s: string): Option<int> {
    var signed := s != "" && (s[0] == '-' || s[0] == '+');
    var digits := if signed then s[1..] else s;
    if digits == "" || !AllDigits(digits) then None
    else if signed && s[0] == '-' then Some(-(Value(digits) as int))
    else Some(Value(digits))
  }

  /** The format "%019d": zeroes go between the sign and the digits. */
  function Padded(z: int): string {
    if z < 0 then "-" + Filled(Digits(-z), ATTO_POWER) else Filled(Digits(z), ATTO_POWER + 1)
  }

  lemma ParseDigits(f: string)
    requires f != "" && AllDigits(f)
    ensures ParseInt(f) == Some(Value(f)) && ParseInt("-" + f) == Some(-(Value(f) as int))
  {
    assert IsDigit(f[0]);
    assert ("-" + f)[1..] == f;
  }

  lemma PaddedFacts(z: int)
    ensures var p := Padded(z);
            && |p| >= ATTO_POWER + 1 && ParseInt(p) == Some(z) && '.' !in p
            && AllDigits(p[|p| - ATTO_POWER..])
  {
    hide Filled, Digits, Value, ParseInt;
    var width := if z < 0 then ATTO_POWER else ATTO_POWER + 1;
    var n := if z < 0 then -z else z;
    var f := Filled(Digits(n), width);
    FilledFacts(n, width);
    ParseDigits(f);
    NoPointInDigits(f);
    var p := Padded(z);
    assert p == (if z < 0 then "-" else "") + f;
    assert p[|p| - ATTO_POWER..] == f[|f| - ATTO_POWER..];
  }

  /** `AttoFIL.String`. */
  function ToString(z: int): string {
    var p := Padded(z);
    PaddedFacts(z);
    var point := |p| - ATTO_POWER;
    TrimRight(TrimRight(p[..point] + "." + p[point..], '0'), '.')
  }

  /** `NewAttoFILFromFILString`: at most one point and eighteen decimals. */
  function FromString(s: string): Option<int> {
    var parts := Split(s);
    var decPart := if |parts| == 1 then "" else parts[1];
    if |decPart| > ATTO_POWER || |parts| > 2 then None
    else ParseInt(parts[0] + decPart + Zeroes(ATTO_POWER - |decPart|))
  }

  method NewAttoFILFromFILString(s: string) returns (r: Option<int>)
    ensures r == FromString(s)
  {
    var splitNumber := Split(s);
    if |splitNumber| == 1 {
      splitNumber := splitNumber + [""];
    }
    var intPart, decPart := splitNumber[0], splitNumber[1];
    if |decPart| > ATTO_POWER || |splitNumber| > 2 { return None; }
    ghost var start := decPart;
    while |decPart| < ATTO_POWER
      invariant |start| <= |decPart| <= ATTO_POWER && decPart == start + Zeroes(|decPart| - |start|)
    {
      decPart := decPart + "0";
    }
    assert intPart + decPart == intPart + start + Zeroes(ATTO_POWER - |start|);
    r := ParseInt(intPart + decPart);
  }

  /** Where `ToString` cuts and trims: the integer part, and a decimal part from which zeroes
      may be missing at the end. */
  lemma StringShape(z: int) returns (i: string, d: string)
    ensures '.' !in i && '.' !in d && |d| <= ATTO_POWER
    ensures Padded(z) == i + d + Zeroes(ATTO_POWER - |d|)
    ensures ToString(z) == if d == "" then i else i + "." + d
  {
    hide Padded, TrimRight;
    var p := Padded(z);
    PaddedFacts(z);
    var dec := p[|p| - ATTO_POWER..];
    i := p[..|p| - ATTO_POWER];
    d := TrimRight(dec, '0');
    assert p == i + dec;
    TrimmedZeroes(dec);
    NoPointInDigits(d);
    assert i + (d + Zeroes(ATTO_POWER - |d|)) == i + d + Zeroes(ATTO_POWER - |d|);
    TrimBoth(i, dec);
  }

  lemma TrimBoth(i: string, dec: string)
    requires '.' !in i && AllDigits(dec)
    ensures var d := TrimRight(dec, '0');
            TrimRight(TrimRight(i + "." + dec, '0'), '.') == if d == "" then i else i + "." + d
  {
    hide TrimRight;
    var d := TrimRight(dec, '0');
    TrimmedZeroes(dec);
    TrimAfter(i + ".", dec, '0');
    if d == "" {
      assert i + "." + d == i + ".";
      TrimPoint(i);
    } else {
      NoPointInDigits(d);
      TrimNothing(i + ".", d);
    }
  }

  lemma TrimPoint(i: string)
    requires '.' !in i
    ensures TrimRight(i + ".", '.') == i
  {
    assert (i + ".")[..|i|] == i;
  }

  lemma TrimNothing(a: string, d: string)
    requires d != "" && '.' !in d
    ensures TrimRight(a + d, '.') == a + d
  {
    assert (a + d)[|a + d| - 1] == d[|d| - 1];
  }

  /** Round trip: every amount, negative ones included, is read back from what is printed. */
  lemma PrintThenParse(z: int)
    ensures FromString(ToString(z)) == Some(z)
  {
    hide Padded, ToString, ParseInt, Split;
    var i, d := StringShape(z);
    PaddedFacts(z);
    if d == "" {
      SplitWithoutPoint(i);
      assert i + d == i;
      assert i + "" + Zeroes(ATTO_POWER) == Padded(z);
    } else {
      SplitAtPoint(i, d);
    }
  }

  /** A digit string with zeroes behind it. */
  lemma TrailingZeroes(s: string, k: nat)
    requires AllDigits(s)
    ensures AllDigits(s + Zeroes(k)) && Value(s + Zeroes(k)) == Value(s) * Pow10(k)
  {
    ValueConcat(s, Zeroes(k));
    LeadingZeroes(k, "");
    assert Zeroes(k) + "" == Zeroes(k);
  }

  lemma EighteenZeroes()
    ensures Pow10(ATTO_POWER) == 1_000_000_000_000_000_000
  {
    assert Pow10(6) == 1_000_000;
    assert Pow10(12) == 1_000_000_000_000;
  }

  /** What is read from whole numbers and decimals, with or without a sign: 10^18 units for each FIL, and
      the decimals by their place.  More than eighteen of them are an error. */
  lemma DecimalsAreRead(n: nat, d: string)
    requires AllDigits(d)
    ensures FromString(Digits(n)) == Some(n * 1_000_000_000_000_000_000)
    ensures FromString("-" + Digits(n)) == Some(-(n * 1_000_000_000_000_000_000))
    ensures |d| > 18 ==> FromString(Digits(n) + "." + d) == None
    ensures |d| <= 18 ==>
              var units := n * 1_000_000_000_000_000_000 + Value(d) * Pow10(18 - |d|);
              && FromString(Digits(n) + "." + d) == Some(units)
              && FromString("-" + Digits(n) + "." + d) == Some(-units)
  {
    hide Digits, Value, FromString, Zeroes, Pow10;
    NoDigits();
    assert "" + Digits(n) == Digits(n);
    FromWhole("", n);
    FromWhole("-", n);
    if |d| <= 18 {
      FromDecimals("", n, d);
      FromDecimals("-", n, d);
    } else {
      TooManyDecimals(n, d);
    }
  }

  lemma FromWhole(sign: string, n: nat)
    requires sign == "" || sign == "-"
    ensures FromString(sign + Digits(n)) ==
              Some(if sign == "" then n * 1_000_000_000_000_000_000 else -(n * 1_000_000_000_000_000_000))
  {
    hide Digits, Value, ParseInt, Split, Zeroes, Pow10;
    NoPointInDigits(Digits(n));
    SplitWithoutPoint(sign + Digits(n));
    NoDigits();
    WholeIsRead(sign, n, "");
  }

  lemma FromDecimals(sign: string, n: nat, d: string)
    requires (sign == "" || sign == "-") && AllDigits(d) && |d| <= 18
    ensures var units := n * 1_000_000_000_000_000_000 + Value(d) * Pow10(18 - |d|);
            FromString(sign + Digits(n) + "." + d) == Some(if sign == "" then units else -units)
  {
    hide Digits, Value, ParseInt, Split, Zeroes, Pow10;
    NoPointInDigits(Digits(n));
    NoPointInDigits(d);
    SplitAtPoint(sign + Digits(n), d);
    WholeIsRead(sign, n, d);
  }

  lemma TooManyDecimals(n: nat, d: string)
    requires AllDigits(d) && |d| > 18
    ensures FromString(Digits(n) + "." + d) == None
  {
    hide Digits, ParseInt, Split, Zeroes;
    NoPointInDigits(Digits(n));
    NoPointInDigits(d);
    SplitAtPoint(Digits(n), d);
  }

  lemma WholeIsRead(sign: string, n: nat, d: string)
    requires (sign == "" || sign == "-") && AllDigits(d) && |d| <= ATTO_POWER
    ensures var units := n * 1_000_000_000_000_000_000 + Value(d) * Pow10(ATTO_POWER - |d|);
            ParseInt(sign + Digits(n) + d + Zeroes(ATTO_POWER - |d|)) == Some(if sign == "" then units else -units)
  {
    hide Digits, Value, ParseInt, Zeroes, Pow10;
    var z := ATTO_POWER - |d|;
    ValueOfDigits(n);
    ValueConcat(Digits(n), d);
    TrailingZeroes(Digits(n) + d, z);
    Powers(|d|, z);
    EighteenZeroes();
    Distribute(n, Pow10(|d|), Value(d), Pow10(z));
    ParseDigits(Digits(n) + d + Zeroes(z));
    assert sign + Digits(n) + d + Zeroes(z) == sign + (Digits(n) + d + Zeroes(z));
    assert "" + (Digits(n) + d + Zeroes(z)) == Digits(n) + d + Zeroes(z);
  }

  lemma Distribute(n: nat, p: nat, v: nat, q: nat)
    ensures (n * p + v) * q == n * (p * q) + v * q
  {
  }

  lemma {:induction false} Powers(i: nat, j: nat)
    ensures Pow10(i) * Pow10(j) == Pow10(i + j)
  {
    hide Pow10;
    NoDigits();
    if i > 0 {
      Powers(i - 1, j);
      NextPower(i);
      NextPower(i + j);
      TenTimes(Pow10(j), Pow10(i - 1));
    }
  }

  /** What is printed: the whole FIL without leading zeroes and, if there is more, a point and the decimals
      without zeroes at the end.  A negative amount has a sign in front of that, and no zero between
      the sign and the point. */
  lemma PrintIs(z: nat)
    ensures var whole, frac := z / 1_000_000_000_000_000_000, z % 1_000_000_000_000_000_000;
            var d := TrimRight(Filled(Digits(frac), 18), '0');
            && ToString(z) == Digits(whole) + (if d == "" then "" else "." + d)
            && (z > 0 ==>
                  ToString(-(z as int)) ==
                    "-" + (if whole == 0 then "" else Digits(whole)) + (if d == "" then "" else "." + d))
  {
    hide Digits, Filled, TrimRight, ToString, Padded;
    var whole, frac := z / 1_000_000_000_000_000_000, z % 1_000_000_000_000_000_000;
    DecimalsFill(frac);
    NoPointInDigits(Digits(whole));
    PositivePadded(z);
    PrintShape(z, Digits(whole), Filled(Digits(frac), 18));
    if z > 0 {
      NegativePadded(z);
      PrintShape(-(z as int), "-" + if whole == 0 then "" else Digits(whole), Filled(Digits(frac), 18));
    }
  }

  lemma PositivePadded(z: nat)
    ensures var whole, frac := z / 1_000_000_000_000_000_000, z % 1_000_000_000_000_000_000;
            Padded(z) == Digits(whole) + Filled(Digits(frac), 18)
  {
    hide Digits, Filled, Pow10;
    EighteenZeroes();
    FilledSplit(z, 18);
  }

  lemma DecimalsFill(frac: nat)
    requires frac < 1_000_000_000_000_000_000
    ensures |Filled(Digits(frac), 18)| == 18 && AllDigits(Filled(Digits(frac), 18))
  {
    hide Digits, Pow10, Zeroes;
    EighteenZeroes();
    DigitsFit(frac, 18);
    FilledFacts(frac, 18);
  }

  lemma PrintShape(z: int, i: string, dec: string)
    requires Padded(z) == i + dec && |dec| == 18 && AllDigits(dec) && '.' !in i
    ensures var d := TrimRight(dec, '0'); ToString(z) == i + if d == "" then "" else "." + d
  {
    hide TrimRight, Padded;
    var p := Padded(z);
    assert p[..|p| - 18] == i && p[|p| - 18..] == dec;
    TrimBoth(i, dec);
    assert i + "" == i && i + "." + TrimRight(dec, '0') == i + ("." + TrimRight(dec, '0'));
  }

  lemma NegativePadded(z: nat)
    requires z > 0
    ensures var whole, frac := z / 1_000_000_000_000_000_000, z % 1_000_000_000_000_000_000;
            Padded(-(z as int)) == "-" + (if whole == 0 then "" else Digits(whole)) + Filled(Digits(frac), 18)
  {
    hide Digits, Pow10, Zeroes;
    EighteenZeroes();
    if z < 1_000_000_000_000_000_000 {
      assert "-" + "" + Filled(Digits(z), 18) == "-" + Filled(Digits(z), 18);
    } else {
      DigitsReach(z, 18);
      FilledSplit(z, 18);
      LongIsFilled(Digits(z), 18);
      LongIsFilled(Digits(z), 19);
    }
  }

  lemma {:induction false} DigitsReach(n: nat, k: nat)
    requires n >= Pow10(k)
    ensures |Digits(n)| > k
  {
    if k > 0 { DigitsReach(n / 10, k - 1); }
  }

  lemma LongIsFilled(digits: string, width: nat)
    requires |digits| >= width
    ensures Filled(digits, width) == digits
  {
    assert Zeroes(0) + digits == digits;
  }

  /** So different amounts print differently. */
  lemma PrintIsInjective(x: int, y: int)
    requires ToString(x) == ToString(y)
    ensures x == y
  {
    PrintThenParse(x);
    PrintThenParse(y);
  }
}
