/** The keys under which tipsets are indexed and stored. */
module StoreKeys {
  import opened Primitives
  import opened TipSetKeys
  import Decimals

  function DigitBytes(s: string): (r: seq<Byte>)
    requires Decimals.AllDigits(s)
    ensures |r| == |s| && forall i | 0 <= i < |s| :: r[i] == s[i] as int && 48 <= r[i] <= 57
  {
    seq(|s|, i requires 0 <= i < |s| => s[i] as int)
  }

  /** "p-" and " h-". */
  const PARENTS_PREFIX: seq<Byte> := [112, 45]
  const HEIGHT_PREFIX: seq<Byte> := [32, 104, 45]

  /** `makeKey`. */
  function MakeKey(key: seq<Byte>, height: nat): seq<Byte> {
    PARENTS_PREFIX + key + HEIGHT_PREFIX + DigitBytes(Decimals.Digits(height))
  }

  lemma SameDigits(a: string, b: string)
    requires Decimals.AllDigits(a) && Decimals.AllDigits(b) && DigitBytes(a) == DigitBytes(b)
    ensures a == b
  {
    forall i | 0 <= i < |a| ensures a[i] == b[i] { assert DigitBytes(a)[i] == DigitBytes(b)[i]; }
  }

  /** A dash before digits ends what is in front of them. */
  lemma DigitsSplit(a: seq<Byte>, b: seq<Byte>, d: seq<Byte>, e: seq<Byte>)
    requires a + d == b + e && |a| > 0 && |b| > 0 && a[|a| - 1] == b[|b| - 1] == 45
    requires (forall i | 0 <= i < |d| :: d[i] != 45) && (forall i | 0 <= i < |e| :: e[i] != 45)
    ensures a == b && d == e
  {
    var s := a + d;
    assert s[|a| - 1] == 45 && s[|b| - 1] == 45;
    forall i | |a| <= i < |s| ensures s[i] != 45 { assert s[i] == d[i - |a|]; }
    forall i | |b| <= i < |s| ensures s[i] != 45 { assert s[i] == e[i - |b|]; }
    assert s[..|a|] == a && s[|a|..] == d && s[..|b|] == b && s[|b|..] == e;
  }

  /** No two keys with heights share a name. */
  lemma MakeKeyInjective(j: seq<Cid>, g: nat, k: seq<Cid>, h: nat, enc: Cid -> seq<Byte>)
    requires Printable(enc) && MakeKey(KeyString(j, enc), g) == MakeKey(KeyString(k, enc), h)
    ensures j == k && g == h
  {
    hide KeyString, Decimals.Digits, Decimals.Value, DigitBytes;
    var a, b := PARENTS_PREFIX + KeyString(j, enc) + HEIGHT_PREFIX, PARENTS_PREFIX + KeyString(k, enc) + HEIGHT_PREFIX;
    DigitsSplit(a, b, DigitBytes(Decimals.Digits(g)), DigitBytes(Decimals.Digits(h)));
    SameDigits(Decimals.Digits(g), Decimals.Digits(h));
    Decimals.ValueOfDigits(g);
    Decimals.ValueOfDigits(h);
    assert KeyString(j, enc) == a[2..|a| - 3] && KeyString(k, enc) == b[2..|b| - 3];
    KeyStringInjective(j, k, enc);
  }
}
