/** Bit vectors packed into bytes from the low-order bit on (LSB0). */
module BitVectors {
  import opened Primitives

  type Bit = n: nat | n < 2

  /** Bit `k` of a number. */
  function BitOf(b: nat, k: nat): Bit {
    if k == 0 then b % 2 else BitOf(b / 2, k - 1)
  }

  /** `b |= v << k`. */
  function OrBit(b: nat, k: nat, v: Bit): nat {
    if v == 1 && BitOf(b, k) == 0 then b + Pow2(k) else b
  }

  /** Adding a bit above all bits of a number sets that bit and no other. */
  lemma {:induction false} BitsBelow(b: nat, k: nat, v: Bit, j: nat)
    requires b < Pow2(k) && j <= k
    ensures BitOf(b + v * Pow2(k), j) == if j == k then v else BitOf(b, j)
  {
    if j > 0 {
      assert (b + v * Pow2(k)) / 2 == b / 2 + v * Pow2(k - 1);
      BitsBelow(b / 2, k - 1, v, j - 1);
    } else if k > 0 {
      assert v * Pow2(k) == 2 * (v * Pow2(k - 1));
    }
  }

  lemma {:induction false} NoBitsAbove(b: nat, k: nat, j: nat)
    requires b < Pow2(k) && k <= j
    ensures BitOf(b, j) == 0
  {
    if k > 0 {
      NoBitsAbove(b / 2, k - 1, j - 1);
    } else if j > 0 {
      NoBitsAbove(0, 0, j - 1);
    }
  }

  lemma Pow2Of8()
    ensures Pow2(4) == 16 && Pow2(8) == 256
  {
    assert Pow2(4) == 16;
  }

  /** The bits of a byte string, eight for each byte. */
  function AllBits(buf: seq<Byte>): (r: seq<Bit>)
    ensures |r| == 8 * |buf|
  {
    seq(8 * |buf|, i requires 0 <= i < 8 * |buf| => BitOf(buf[i / 8], i % 8))
  }

  /** The low `count` bits of a number, lowest first. */
  function LowBits(n: nat, count: nat): (r: seq<Bit>)
    ensures |r| == count
  {
    if count == 0 then [] else [n % 2] + LowBits(n / 2, count - 1)
  }

  /** The number whose bits these are, lowest first. */
  function Number(bits: seq<Bit>): nat {
    if bits == [] then 0 else bits[0] + 2 * Number(bits[1..])
  }

  lemma {:induction false} NumberOfLowBits(n: nat, count: nat)
    requires n < Pow2(count)
    ensures Number(LowBits(n, count)) == n
  {
    if count > 0 { NumberOfLowBits(n / 2, count - 1); }
  }

  /** Reading bits at a position; past the end all bits are zero. */
  function Peek(bits: seq<Bit>, pos: nat): Bit {
    if pos < |bits| then bits[pos] else 0
  }

  function Take(bits: seq<Bit>, pos: nat, count: nat): (r: nat)
    ensures r < Pow2(count)
    decreases count
  {
    if count == 0 then 0 else Peek(bits, pos) + 2 * Take(bits, pos + 1, count - 1)
  }

  lemma {:induction false} TakeWithin(bits: seq<Bit>, pos: nat, count: nat)
    requires pos + count <= |bits|
    ensures Take(bits, pos, count) == Number(bits[pos..pos + count])
    decreases count
  {
    if count > 0 {
      TakeWithin(bits, pos + 1, count - 1);
      assert bits[pos..pos + count][1..] == bits[pos + 1..pos + count];
    }
  }

  lemma {:induction false} TakeZeroes(bits: seq<Bit>, pos: nat, count: nat)
    requires forall i | pos <= i < |bits| :: bits[i] == 0
    ensures Take(bits, pos, count) == 0
    decreases count
  {
    if count > 0 { TakeZeroes(bits, pos + 1, count - 1); }
  }

  class BitVector {
    var Buf: seq<Byte>
    var Len: nat

    /** The bytes are as many as the bits need, and no bit is set beyond the last one. */
    ghost predicate Valid()
      reads this
    {
      && |Buf| == (Len + 7) / 8
      && (Len % 8 != 0 ==> Buf[|Buf| - 1] < Pow2(Len % 8))
    }

    ghost function Bits(): seq<Bit>
      requires Valid()
      reads this
    {
      AllBits(Buf)[..Len]
    }

    constructor ()
      ensures Valid() && Bits() == []
    {
      Buf, Len := [], 0;
    }

    method Push(val: Byte)
      requires Valid()
      modifies this
      ensures Valid() && Bits() == old(Bits()) + [val % 2]
    {
      ghost var before := Bits();
      if Len % 8 == 0 {
        Buf := Buf + [0];
      }
      var lastIdx, k := Len / 8, Len % 8;
      var b := Buf[lastIdx];
      assert b < Pow2(k);
      SetTopBit(b, k, val % 2);
      Buf := Buf[lastIdx := OrBit(b, k, val % 2)];
      Len := Len + 1;
      forall i | 0 <= i < Len ensures AllBits(Buf)[i] == (before + [val % 2])[i] {
        if i / 8 == lastIdx { BitsBelow(b, k, val % 2, i % 8); }
      }
      assert AllBits(Buf)[..Len] == before + [val % 2];
    }

    /** Adds the low `count` bits of a byte, lowest first. */
    method Extend(val: Byte, count: nat)
      requires Valid() && count <= 8
      modifies this
      ensures Valid() && Bits() == old(Bits()) + LowBits(val, count)
    {
      hide LowBits, AllBits;
      var rest := val;
      for i := 0 to count
        invariant Valid() && Bits() + LowBits(rest, count - i) == old(Bits()) + LowBits(val, count)
      {
        ghost var bits := Bits();
        Push(rest % 2);
        LowBitsStep(bits, rest, count - i);
        rest := rest / 2;
      }
      assert Bits() + LowBits(rest, 0) == Bits();
    }
  }

  lemma LowBitsStep(bits: seq<Bit>, n: nat, count: nat)
    requires count > 0
    ensures bits + LowBits(n, count) == bits + [n % 2] + LowBits(n / 2, count - 1)
  {
  }

  lemma SetTopBit(b: nat, k: nat, v: Bit)
    requires b < Pow2(k) && k < 8
    ensures OrBit(b, k, v) == b + v * Pow2(k) < Pow2(k + 1) <= 256
  {
    NoBitsAbove(b, k, k);
    Pow2Of8();
    Pow2Grows(k + 1, 8);
  }

  /** The bits of a whole buffer are those of the vector and zeroes up to the byte boundary. */
  lemma PaddingIsZero(v: BitVector)
    requires v.Valid()
    ensures v.Len <= 8 * |v.Buf| && AllBits(v.Buf)[..v.Len] == v.Bits()
    ensures forall i | v.Len <= i < 8 * |v.Buf| :: AllBits(v.Buf)[i] == 0
  {
    forall i | v.Len <= i < 8 * |v.Buf| ensures AllBits(v.Buf)[i] == 0 {
      NoBitsAbove(v.Buf[i / 8], v.Len % 8, i % 8);
    }
  }

  /** `BitVector.Iterator`: a cursor over the bits of a buffer. */
  class BitReader {
    const buf: seq<Byte>
    var cursor: nat

    constructor (bytes: seq<Byte>)
      ensures buf == bytes && cursor == 0
    {
      buf, cursor := bytes, 0;
    }

    /** Up to eight bits, lowest first; zeroes when the end has been reached. */
    method Next(count: nat) returns (out: Byte)
      requires count <= 8
      modifies this
      ensures out == Take(AllBits(buf), old(cursor), count) && cursor == old(cursor) + count
    {
      hide Take, AllBits, Peek;
      Pow2Of8();
      Pow2Grows(count, 8);
      var value: nat := 0;
      var weight: nat := 1;
      for i := 0 to count
        invariant cursor == old(cursor)
        invariant value + weight * Take(AllBits(buf), cursor + i, count - i) == Take(AllBits(buf), cursor, count)
        invariant weight > 0
      {
        var idx := cursor + i;
        var bit := if idx < 8 * |buf| then BitOf(buf[idx / 8], idx % 8) else 0;
        TakeStep(AllBits(buf), idx, count - i, value, weight);
        PeekBuffer(buf, idx);
        value := value + weight * bit;
        weight := 2 * weight;
      }
      TakeNothing(AllBits(buf), cursor + count);
      cursor := cursor + count;
      out := value;
    }
  }

  lemma PeekBuffer(buf: seq<Byte>, idx: nat)
    ensures Peek(AllBits(buf), idx) == if idx < 8 * |buf| then BitOf(buf[idx / 8], idx % 8) else 0
  {
  }

  lemma TakeNothing(bits: seq<Bit>, pos: nat)
    ensures Take(bits, pos, 0) == 0
  {
  }

  lemma TakeStep(bits: seq<Bit>, pos: nat, count: nat, value: nat, weight: nat)
    requires count > 0
    ensures value + weight * Take(bits, pos, count) ==
              value + weight * Peek(bits, pos) + 2 * weight * Take(bits, pos + 1, count - 1)
  {
    var bit, rest := Peek(bits, pos), Take(bits, pos + 1, count - 1);
    assert weight * (bit + 2 * rest) == weight * bit + 2 * weight * rest;
  }
}
