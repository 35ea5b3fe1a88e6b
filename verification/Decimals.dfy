/** Decimal numerals as character strings. */
module Decimals {

  predicate IsDigit(c: char) {
    '0' <= c <= '9'
  }

  function DigitChar(d: nat): (c: char)
    requires d < 10
    ensures IsDigit(c) && c as int - '0' as int == d
  {
    ('0' as int + d) as char
  }

  predicate AllDigits(s: string) {
    forall i | 0 <= i < |s| :: IsDigit(s[i])
  }

  /** The numeral of a number, without leading zeroes. */
  function Digits(n: nat): (s: string)
    ensures |s| > 0 && AllDigits(s)
  {
    if n < 10 then [DigitChar(n)] else Digits(n / 10) + [DigitChar(n % 10)]
  }

  /** The value of a digit string. */
  function Value(s: string): nat
    requires AllDigits(s)
  {
    if s == "" then 0 else 10 * Value(s[..|s| - 1]) + (s[|s| - 1] as int - '0' as int)
  }

  function Zeroes(k: nat): (s: string)
    ensures |s| == k && AllDigits(s) && forall i | 0 <= i < k :: s[i] == '0'
  {
    if k == 0 then "" else Zeroes(k - 1) + "0"
  }

  lemma {:induction false} ValueOfDigits(n: nat)
    ensures Value(Digits(n)) == n
  {
    if n < 10 {
      assert Digits(n)[..0] == "";
    } else {
      ValueOfDigits(n / 10);
      assert Digits(n)[..|Digits(n)| - 1] == Digits(n / 10);
    }
  }

  lemma {:induction false} LeadingZeroes(k: nat, s: string)
    requires AllDigits(s)
    ensures AllDigits(Zeroes(k) + s) && Value(Zeroes(k) + s) == Value(s)
  {
    if s == "" {
      assert Zeroes(k) + s == Zeroes(k);
      if k > 0 {
        LeadingZeroes(k - 1, "");
        assert Zeroes(k - 1) + "" == Zeroes(k - 1);
        assert Zeroes(k)[..k - 1] == Zeroes(k - 1);
      }
    } else {
      LeadingZeroes(k, s[..|s| - 1]);
      assert (Zeroes(k) + s)[..k + |s| - 1] == Zeroes(k) + s[..|s| - 1];
    }
  }

  function Pow10(k: nat): nat {
    if k == 0 then 1 else 10 * Pow10(k - 1)
  }

  lemma {:induction false} ValueConcat(a: string, b: string)
    requires AllDigits(a) && AllDigits(b)
    ensures AllDigits(a + b) && Value(a + b) == Value(a) * Pow10(|b|) + Value(b)
  {
    hide Value, Pow10;
    if b == "" {
      assert a + b == a;
      NoDigits();
    } else {
      var init := b[..|b| - 1];
      ValueConcat(a, init);
      assert (a + b)[..|a + b| - 1] == a + init;
      ValueLast(a + b);
      ValueLast(b);
      TenTimes(Value(a), Pow10(|b| - 1));
      NextPower(|b|);
    }
  }

  lemma NoDigits()
    ensures Value("") == 0 && Pow10(0) == 1
  {
  }

  lemma ValueLast(s: string)
    requires s != "" && AllDigits(s)
    ensures Value(s) == 10 * Value(s[..|s| - 1]) + (s[|s| - 1] as int - '0' as int)
  {
  }

  lemma NextPower(k: nat)
    requires k > 0
    ensures Pow10(k) == 10 * Pow10(k - 1)
  {
  }

  lemma TenTimes(v: nat, p: nat)
    ensures v * (10 * p) == 10 * (v * p)
  {
  }

  /** Digits filled up with zeroes on the left. */
  function Filled(digits: string, width: nat): string {
    Zeroes(if |digits| < width then width - |digits| else 0) + digits
  }

  lemma FilledFacts(n: nat, width: nat)
    ensures var f := Filled(Digits(n), width);
            |f| > 0 && |f| >= width && AllDigits(f) && Value(f) == n
  {
    hide Value, Digits, Zeroes;
    ValueOfDigits(n);
    LeadingZeroes(if |Digits(n)| < width then width - |Digits(n)| else 0, Digits(n));
  }

  lemma {:induction false} DigitsFit(n: nat, k: nat)
    requires k > 0 && n < Pow10(k)
    ensures |Digits(n)| <= k
  {
    if n >= 10 { DigitsFit(n / 10, k - 1); }
  }

  lemma FilledStep(n: nat, k: nat)
    requires k > 1
    ensures Filled(Digits(n), k) == Filled(Digits(n / 10), k - 1) + [DigitChar(n % 10)]
  {
    hide Zeroes, Digits;
    DigitsStep(n);
    var rest, last := Digits(n / 10), [DigitChar(n % 10)];
    if n < 10 {
      OneDigit(0);
      MoreZeroes(k - 2);
      assert Filled(rest, k - 1) == Zeroes(k - 2) + "0";
    } else {
      var fill := Zeroes(if |rest| < k - 1 then k - 1 - |rest| else 0);
      assert fill + (rest + last) == fill + rest + last;
    }
  }

  lemma DigitsStep(n: nat)
    ensures Digits(n) == if n < 10 then [DigitChar(n % 10)] else Digits(n / 10) + [DigitChar(n % 10)]
  {
  }

  lemma MoreZeroes(k: nat)
    ensures Zeroes(k) + "0" == Zeroes(k + 1)
  {
  }

  lemma DivUnique(n: nat, m: nat, a: nat, b: nat)
    requires b < m && n == m * a + b
    ensures n / m == a && n % m == b
  {
    var q, r := n / m, n % m;
    Divides(n, m);
    Difference(m, q, a);
    SmallMultiple(q - a, m);
  }

  lemma Divides(n: nat, m: nat)
    requires m > 0
    ensures n == m * (n / m) + n % m && 0 <= n % m < m
  {
  }

  lemma Difference(m: nat, q: int, a: int)
    ensures m * (q - a) == m * q - m * a
  {
  }

  lemma SmallMultiple(x: int, m: int)
    requires m > 0 && -m < m * x < m
    ensures x == 0
  {
  }

  function Quotient(n: nat, m: nat): nat
    requires m > 0
  {
    Divides(n, m);
    n / m
  }

  function Remainder(n: nat, m: nat): nat
    requires m > 0
  {
    n % m
  }

  lemma TenthsOf(n: nat, p: nat, m: nat)
    requires p > 0 && m == 10 * p
    ensures Quotient(n / 10, p) == Quotient(n, m)
    ensures Remainder(n, m) / 10 == Remainder(n / 10, p) && Remainder(n, m) % 10 == n % 10
  {
    var a, r, d := Quotient(n / 10, p), Remainder(n / 10, p), n % 10;
    Divides(n / 10, p);
    assert 10 * (p * a) == m * a;
    DivUnique(n, m, a, 10 * r + d);
  }

  lemma SplitStep(n: nat, k: nat, p: nat, m: nat)
    requires k > 1 && p > 0 && m == 10 * p
    requires Filled(Digits(n / 10), k) == Digits(Quotient(n / 10, p)) + Filled(Digits(Remainder(n / 10, p)), k - 1)
    ensures Filled(Digits(n), k + 1) == Digits(Quotient(n, m)) + Filled(Digits(Remainder(n, m)), k)
  {
    hide *;
    FilledStep(n, k + 1);
    TenthsOf(n, p, m);
    FilledStep(Remainder(n, m), k);
    var whole, frac := Digits(Quotient(n / 10, p)), Filled(Digits(Remainder(n / 10, p)), k - 1);
    var last := [DigitChar(n % 10)];
    assert whole + frac + last == whole + (frac + last);
  }

  /** The last `k` digits and those before them. */
  lemma {:induction false} FilledSplit(n: nat, k: nat)
    requires k > 0
    ensures Pow10(k) > 0
    ensures Filled(Digits(n), k + 1) == Digits(Quotient(n, Pow10(k))) + Filled(Digits(Remainder(n, Pow10(k))), k)
  {
    hide Filled, Digits, Pow10;
    FilledStep(n, k + 1);
    NextPower(k);
    NoDigits();
    PowerIsPositive(k);
    PowerIsPositive(k - 1);
    if k == 1 {
      FilledToOne(n / 10);
      FilledToOne(n % 10);
      OneDigit(n % 10);
    } else {
      FilledSplit(n / 10, k - 1);
      SplitStep(n, k, Pow10(k - 1), Pow10(k));
    }
  }

  lemma {:induction false} PowerIsPositive(k: nat)
    ensures Pow10(k) > 0
  {
    if k > 0 { PowerIsPositive(k - 1); }
  }

  lemma FilledToOne(n: nat)
    ensures Filled(Digits(n), 1) == Digits(n)
  {
    assert Zeroes(0) + Digits(n) == Digits(n);
  }

  lemma OneDigit(d: nat)
    requires d < 10
    ensures Digits(d) == [DigitChar(d)]
  {
  }

  lemma NoPointInDigits(f: string)
    requires AllDigits(f)
    ensures '.' !in f
  {
  }

  /** `strings.Split(s, ".")`. */
  function Split(s: string): (r: seq<string>)
    ensures |r| > 0
  {
    if s == "" then [""]
    else if s[0] == '.' then [""] + Split(s[1..])
    else var r := Split(s[1..]); [[s[0]] + r[0]] + r[1..]
  }

  lemma {:induction false} SplitWithoutPoint(s: string)
    requires '.' !in s
    ensures Split(s) == [s]
  {
    if s != "" {
      SplitWithoutPoint(s[1..]);
      assert [s[0]] + s[1..] == s;
    }
  }

  lemma {:induction false} SplitAtPoint(a: string, b: string)
    requires '.' !in a && '.' !in b
    ensures Split(a + "." + b) == [a, b]
  {
    var s := a + "." + b;
    if a == "" {
      assert s[1..] == b;
      SplitWithoutPoint(b);
    } else {
      SplitAtPoint(a[1..], b);
      assert s[1..] == a[1..] + "." + b;
      assert [a[0]] + a[1..] == a;
    }
  }

  /** `strings.TrimRight` of one character. */
  function TrimRight(s: string, c: char): string {
    if s == "" || s[|s| - 1] != c then s else TrimRight(s[..|s| - 1], c)
  }

  lemma {:induction false} TrimAfter(a: string, b: string, c: char)
    requires a == "" || a[|a| - 1] != c
    ensures TrimRight(a + b, c) == a + TrimRight(b, c)
  {
    if b == "" {
      assert a + b == a;
    } else if b[|b| - 1] == c {
      TrimAfter(a, b[..|b| - 1], c);
      assert (a + b)[..|a + b| - 1] == a + b[..|b| - 1];
    }
  }

  /** What trimming zeroes takes away are zeroes. */
  lemma {:induction false} TrimmedZeroes(s: string)
    requires AllDigits(s)
    ensures var t := TrimRight(s, '0');
            AllDigits(t) && |t| <= |s| && s == t + Zeroes(|s| - |t|)
  {
    var t := TrimRight(s, '0');
    if s != "" && s[|s| - 1] == '0' {
      TrimmedZeroes(s[..|s| - 1]);
      assert s == s[..|s| - 1] + "0";
    } else {
      assert s + "" == s;
    }
  }
}
