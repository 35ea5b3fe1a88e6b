/** Base-128 varints: little-endian groups of seven bits, the top bit of a byte set on all
    groups but the last.  Used by the RLE+ long blocks and by id addresses. */
module Varint {
  import opened Primitives

  /** `binary.PutUvarint`. */
  function Put(n: nat): (r: seq<Byte>)
    ensures |r| > 0
  {
    if n < 128 then [n] else [n % 128 + 128] + Put(n / 128)
  }

  function Pow128(k: nat): (r: nat)
    ensures r > 0
  {
    if k == 0 then 1 else 128 * Pow128(k - 1)
  }

  /** Every byte but the last carries the continuation bit. */
  predicate Terminated(s: seq<Byte>) {
    |s| > 0 && s[|s| - 1] < 128 && forall i | 0 <= i < |s| - 1 :: s[i] >= 128
  }

  lemma {:induction false} PutIsTerminated(n: nat)
    ensures Terminated(Put(n))
  {
    if n >= 128 { PutIsTerminated(n / 128); }
  }

  lemma {:induction false} PutLength(n: nat, k: nat)
    requires 0 < k && n < Pow128(k)
    ensures |Put(n)| <= k
  {
    if n >= 128 { PutLength(n / 128, k - 1); }
  }

  /** `binary.Uvarint`: the value of the first varint in `s`, zero when it is truncated or
      does not fit 64 bits. */
  function Get(s: seq<Byte>): (r: Uint64) {
    GetFrom(s, 0, 0, 1)
  }

  /** The reading loop from byte `i` on: `x` is the value so far and `shift` the weight 2^s.
      `x` stays below `shift`, so the source's bitwise or is an addition. */
  function GetFrom(s: seq<Byte>, i: nat, x: Uint64, shift: nat): (r: Uint64)
    decreases |s| - i
  {
    if i >= |s| then 0
    else if s[i] < 128 then
      if i > 9 || (i == 9 && s[i] > 1) then 0 else Wrap(x + s[i] * shift)
    else GetFrom(s, i + 1, Wrap(x + (s[i] - 128) * shift), shift * 128)
  }

  /** A varint that fits 64 bits is read back exactly. */
  lemma GetPut(n: Uint64)
    ensures Get(Put(n)) == n
    ensures |Put(n)| <= 10
  {
    GetFromPut([], n, 0, 1);
    assert [] + Put(n) == Put(n);
    PowersOf128();
    PutLength(n, 10);
  }

  lemma {:induction false} GetFromPut(pre: seq<Byte>, n: nat, x: Uint64, shift: nat)
    requires shift == Pow128(|pre|) && x < shift
    requires n > 0 || pre == []
    requires x + n * shift < TWO_64
    ensures GetFrom(pre + Put(n), |pre|, x, shift) == x + n * shift
    decreases n
  {
    hide GetFrom, Wrap;
    var s := pre + Put(n);
    if n < 128 {
      assert s == pre + [n];
      ReadLast(s, |pre|, x, n, shift);
    } else {
      var low, high := n % 128, n / 128;
      assert s == (pre + [low + 128]) + Put(high);
      SplitProduct(low, high, shift);
      ReadMore(s, |pre|, x, low, shift);
      GetFromPut(pre + [low + 128], high, x + low * shift, shift * 128);
    }
  }

  lemma ReadLast(s: seq<Byte>, i: nat, x: Uint64, n: nat, shift: nat)
    requires shift == Pow128(i) && i < |s| && s[i] == n < 128
    requires n > 0 || i == 0
    requires x + n * shift < TWO_64
    ensures GetFrom(s, i, x, shift) == x + n * shift
  {
    if n > 0 { FitsInTenBytes(i, n, shift); }
  }

  lemma ReadMore(s: seq<Byte>, i: nat, x: Uint64, low: nat, shift: nat)
    requires i < |s| && s[i] == low + 128 && x + low * shift < TWO_64
    ensures GetFrom(s, i, x, shift) == GetFrom(s, i + 1, x + low * shift, shift * 128)
  {
  }

  lemma SplitProduct(low: nat, high: nat, shift: nat)
    requires low < 128
    ensures (128 * high + low) * shift == low * shift + high * (shift * 128)
    ensures low * shift + shift <= shift * 128
  {
    assert low * shift + shift == (low + 1) * shift;
    assert (low + 1) * shift <= 128 * shift;
  }

  lemma FitsInTenBytes(i: nat, n: nat, shift: nat)
    requires shift == Pow128(i) && n > 0
    requires n * shift < TWO_64
    ensures i <= 9 && (i == 9 ==> n <= 1)
  {
    PowersOf128();
    if i > 9 {
      Pow128Grows(10, i);
    }
  }

  lemma PowersOf128()
    ensures Pow128(9) == TWO_63 && Pow128(10) == 128 * TWO_63
  {
    assert Pow128(2) == 16384;
    assert Pow128(4) == 0x1000_0000;
    assert Pow128(6) == 0x400_0000_0000;
    assert Pow128(8) == 0x100_0000_0000_0000;
  }

  lemma {:induction false} Pow128Grows(i: nat, j: nat)
    requires i <= j
    ensures Pow128(i) <= Pow128(j)
  {
    if i < j { Pow128Grows(i, j - 1); }
  }

  // ----- no shorter varint, and no other one as short -----

  /** The number whose groups the bytes are. */
  function ValueOf(s: seq<Byte>): nat
    requires Terminated(s)
  {
    if |s| == 1 then s[0] else s[0] - 128 + 128 * ValueOf(s[1..])
  }

  lemma {:induction false} ValueBound(s: seq<Byte>)
    requires Terminated(s)
    ensures ValueOf(s) < Pow128(|s|)
    ensures |s| > 1 && s[|s| - 1] == 0 ==> ValueOf(s) < Pow128(|s| - 1)
    ensures s[|s| - 1] > 0 ==> ValueOf(s) > 0
  {
    if |s| > 1 { ValueBound(s[1..]); } else { assert Pow128(1) == 128; }
  }

  lemma ValueFirst(s: seq<Byte>)
    requires Terminated(s)
    ensures if |s| == 1 then ValueOf(s) == s[0]
            else Terminated(s[1..]) && s[0] >= 128 && ValueOf(s) == s[0] - 128 + 128 * ValueOf(s[1..])
  {
  }

  lemma PutFirst(n: nat)
    ensures Put(n) == if n < 128 then [n] else [n % 128 + 128] + Put(n / 128)
  {
  }

  /** A varint without a needless last byte is the one that is written. */
  lemma {:induction false} PutValue(s: seq<Byte>)
    requires Terminated(s) && (|s| == 1 || s[|s| - 1] > 0)
    ensures Put(ValueOf(s)) == s
  {
    hide Pow128, ValueOf, Put;
    ValueFirst(s);
    if |s| == 1 {
      assert s == [s[0]];
      PutFirst(s[0]);
    } else {
      ValueBound(s[1..]);
      PutValue(s[1..]);
      PutFirst(ValueOf(s));
      assert s == [s[0]] + s[1..];
    }
  }

  /** Of more than ten bytes nothing is read. */
  lemma {:induction false} TooLong(s: seq<Byte>, i: nat, x: Uint64, shift: nat)
    requires Terminated(s) && |s| > 10 && i <= |s|
    ensures GetFrom(s, i, x, shift) == 0
    decreases |s| - i
  {
    if i < |s| && s[i] >= 128 { TooLong(s, i + 1, Wrap(x + (s[i] - 128) * shift), shift * 128); }
  }

  lemma {:induction false} GetFromIs(s: seq<Byte>, i: nat, x: Uint64, shift: nat)
    requires i < |s| <= 10 && Terminated(s) && Terminated(s[i..]) && shift == Pow128(i) && x < shift
    ensures GetFrom(s, i, x, shift) ==
              if |s| == 10 && s[9] > 1 then 0 else x + ValueOf(s[i..]) * shift
    decreases |s| - i
  {
    hide GetFrom, Wrap;
    var b := s[i];
    PowersOf128();
    if i == |s| - 1 {
      LastByte(s, i, x, shift);
    } else {
      var low := b - 128;
      assert s[i..][1..] == s[i + 1..];
      Pow128Grows(i + 1, 9);
      SplitProduct(low, ValueOf(s[i + 1..]), shift);
      ReadMore(s, i, x, low, shift);
      GetFromIs(s, i + 1, x + low * shift, shift * 128);
    }
  }

  lemma LastByte(s: seq<Byte>, i: nat, x: Uint64, shift: nat)
    requires i == |s| - 1 && |s| <= 10 && Terminated(s) && shift == Pow128(i) && x < shift
    ensures GetFrom(s, i, x, shift) == if |s| == 10 && s[9] > 1 then 0 else x + s[i] * shift
  {
    PowersOf128();
    if i < 9 {
      Pow128Grows(i + 1, 9);
      assert s[i] * shift + shift <= 128 * shift;
    }
  }

  /** What is read of a terminated varint. */
  lemma GetIs(s: seq<Byte>)
    requires Terminated(s)
    ensures Get(s) == if |s| > 10 || (|s| == 10 && s[9] > 1) then 0 else ValueOf(s)
  {
    if |s| > 10 {
      TooLong(s, 0, 0, 1);
    } else {
      assert s[0..] == s;
      GetFromIs(s, 0, 0, 1);
    }
  }

  /** The varint of a number is the shortest one read as it, and the only one of its length. */
  lemma PutIsShortest(n: Uint64, s: seq<Byte>)
    requires n > 0 && Terminated(s) && Get(s) == n
    ensures |Put(n)| <= |s| && (|Put(n)| == |s| ==> s == Put(n))
  {
    hide Put, Get;
    GetIs(s);
    ValueBound(s);
    PutLength(n, |s|);
    if |Put(n)| == |s| {
      if |s| > 1 && s[|s| - 1] == 0 { PutLength(n, |s| - 1); }
      PutValue(s);
    }
  }

  /** Its size is the number of groups of seven bits. */
  lemma {:induction false} PutSize(n: nat)
    ensures n < Pow128(|Put(n)|) && (|Put(n)| > 1 ==> n >= Pow128(|Put(n)| - 1))
  {
    if n < 128 { assert Pow128(1) == 128; } else { PutSize(n / 128); }
  }
}
