/** The RLE+ bitset encoding: run lengths in a variable-length bit code. */
module RlePlus {
  import opened Primitives
  import opened BitVectors
  import Varint
  import GoSort

  // ----- the code of a run -----

  function ByteBits(bytes: seq<Byte>): (r: seq<Bit>)
    ensures |r| == 8 * |bytes|
  {
    if bytes == [] then [] else LowBits(bytes[0], 8) + ByteBits(bytes[1..])
  }

  function RunBits(run: Uint64): (r: seq<Bit>)
    ensures |r| > 0
  {
    if run == 1 then [1]
    else if run < 16 then [0, 1] + LowBits(run, 4)
    else [0, 0] + ByteBits(Varint.Put(run))
  }

  function RunsBits(runs: seq<Uint64>): seq<Bit> {
    if runs == [] then [] else RunBits(runs[0]) + RunsBits(runs[1..])
  }

  /** Version 0, the value of the first run, then the runs. */
  function EncodedBits(firstBit: Bit, runs: seq<Uint64>): seq<Bit> {
    [0, 0, firstBit] + RunsBits(runs)
  }

  lemma {:induction false} RunsBitsSnoc(runs: seq<Uint64>, run: Uint64)
    ensures RunsBits(runs + [run]) == RunsBits(runs) + RunBits(run)
  {
    hide RunBits;
    if runs == [] {
      assert runs + [run] == [run] && [run][1..] == [];
    } else {
      RunsBitsSnoc(runs[1..], run);
      assert (runs + [run])[1..] == runs[1..] + [run];
    }
  }

  // ----- reading -----

  datatype Block = BadBlock | Block(length: Uint64, next: nat, last: bool)

  /** A long block: the bytes of a varint, at most eleven.  A zero ends the encoding. */
  function ReadLong(bits: seq<Bit>, pos: nat, buf: seq<Byte>): (r: Block)
    requires |buf| <= 10
    ensures r.Block? ==> r.next > pos
    ensures pos >= |bits| && buf == [] ==> r.Block? && r.last
    decreases 10 - |buf|
  {
    Pow2Of8();
    TakeZeroesBeyond(bits, pos, 8);
    var b := Take(bits, pos, 8);
    if b < 128 then
      var x := Varint.Get(buf + [b]);
      assert buf == [] && b == 0 ==> buf + [b] == Varint.Put(0);
      Varint.GetPut(0);
      Block(x, pos + 8, x == 0)
    else if |buf| + 1 > 10 then BadBlock
    else ReadLong(bits, pos + 8, buf + [b])
  }

  lemma TakeZeroesBeyond(bits: seq<Bit>, pos: nat, count: nat)
    ensures pos >= |bits| ==> Take(bits, pos, count) == 0
  {
    if pos >= |bits| { TakeZeroes(bits, pos, count); }
  }

  function ReadBlock(bits: seq<Bit>, pos: nat): (r: Block)
    ensures r.Block? ==> r.next > pos
    ensures pos >= |bits| ==> r.Block? && r.last
  {
    TakeZeroesBeyond(bits, pos, 1);
    TakeZeroesBeyond(bits, pos + 1, 1);
    Pow2Of8();
    if Take(bits, pos, 1) == 1 then Block(1, pos + 1, false)
    else if Take(bits, pos + 1, 1) == 1 then Block(Take(bits, pos + 2, 4), pos + 6, false)
    else ReadLong(bits, pos + 2, [])
  }

  /** The members a run of ones stands for; the index wraps at 64 bits and a length that is
      negative as an int stands for none. */
  function Members(start: Uint64, length: int): (r: seq<Uint64>)
    ensures |r| == if length <= 0 then 0 else length
    ensures forall j | 0 <= j < |r| :: r[j] == Wrap(start + j)
    decreases length
  {
    if length <= 0 then [] else Members(start, length - 1) + [Wrap(start + length - 1)]
  }

  datatype DecodeError = WrongVersion | BadEncoding

  function DecodeFrom(bits: seq<Bit>, pos: nat, curIdx: Uint64, curBit: Bit): Result<seq<Uint64>, DecodeError>
    decreases if pos < |bits| then |bits| - pos else 0
  {
    var b := ReadBlock(bits, pos);
    if b.BadBlock? then Err(BadEncoding)
    else
      var runLength := ToInt64(b.length);
      var here := if curBit == 1 then Members(curIdx, runLength) else [];
      if b.last then Ok(here)
      else
        match DecodeFrom(bits, b.next, Wrap(curIdx + runLength), 1 - curBit)
        case Err(e) => Err(e)
        case Ok(rest) => Ok(here + rest)
  }

  function DecodeBytes(buf: seq<Byte>): Result<seq<Uint64>, DecodeError> {
    if buf == [] then Ok([])
    else
      var bits := AllBits(buf);
      if Take(bits, 0, 2) != 0 then Err(WrongVersion)
      else DecodeFrom(bits, 3, 0, Peek(bits, 2))
  }

  // ----- no shorter code, and no other one as short -----

  lemma {:induction false} LowBitsOfTake(bits: seq<Bit>, pos: nat, count: nat)
    requires pos + count <= |bits|
    ensures LowBits(Take(bits, pos, count), count) == bits[pos..pos + count]
    decreases count
  {
    if count > 0 {
      LowBitsOfTake(bits, pos + 1, count - 1);
      assert bits[pos..pos + count] == [bits[pos]] + bits[pos + 1..pos + count];
    }
  }

  /** What a long block is read from: the bytes of one varint. */
  lemma {:induction false} ReadLongFrom(bits: seq<Bit>, pos: nat, buf: seq<Byte>) returns (bytes: seq<Byte>)
    requires |buf| <= 10 && ReadLong(bits, pos, buf).Block? && ReadLong(bits, pos, buf).next <= |bits|
    ensures var r := ReadLong(bits, pos, buf);
            && Varint.Terminated(bytes) && r.next == pos + 8 * |bytes| && r.length == Varint.Get(buf + bytes)
            && bits[pos..r.next] == ByteBits(bytes)
    decreases 10 - |buf|
  {
    hide Take, LowBits, Varint.Get;
    Pow2Of8();
    var b := Take(bits, pos, 8);
    var next := ReadLong(bits, pos, buf).next;
    if b < 128 {
      bytes := [b];
      LowBitsOfTake(bits, pos, 8);
      assert bytes[1..] == [] && ByteBits([]) == [];
    } else {
      var rest := ReadLongFrom(bits, pos + 8, buf + [b]);
      bytes := [b] + rest;
      LowBitsOfTake(bits, pos, 8);
      assert buf + [b] + rest == buf + bytes && bytes[1..] == rest;
      assert bits[pos..next] == bits[pos..pos + 8] + bits[pos + 8..next];
    }
  }

  lemma TwoBits(w: seq<Bit>, tag: Bit)
    requires |w| >= 2 && Take(w, 0, 1) == 0 && Take(w, 1, 1) == tag
    ensures w == [0, tag] + w[2..]
  {
    assert w[0] == 0 && w[1] == tag;
  }

  lemma ShortestLong(w: seq<Bit>, run: Uint64)
    requires run > 0 && |w| >= 2 && w == [0, 0] + w[2..]
    requires ReadLong(w, 2, []).Block? && ReadLong(w, 2, []).length == run && ReadLong(w, 2, []).next == |w|
    ensures |w| >= 10
    ensures run >= 16 ==> |RunBits(run)| <= |w| && (|RunBits(run)| == |w| ==> w == RunBits(run))
  {
    hide ReadLong, ByteBits, Varint.Put, Varint.Get;
    var bytes := ReadLongFrom(w, 2, []);
    assert [] + bytes == bytes && w[2..|w|] == w[2..];
    Varint.PutIsShortest(run, bytes);
  }

  /** The code of a run is the shortest one that is read as it, and the only one of its length. */
  lemma ShortestCode(w: seq<Bit>, run: Uint64)
    requires run > 0 && ReadBlock(w, 0).Block? && ReadBlock(w, 0).length == run && ReadBlock(w, 0).next == |w|
    ensures |RunBits(run)| <= |w| && (|RunBits(run)| == |w| ==> w == RunBits(run))
  {
    hide Take, LowBits, ReadLong, ByteBits, Varint.Put;
    Pow2Of8();
    if Take(w, 0, 1) == 1 {
      LowBitsOfTake(w, 0, 1);
      assert w == w[0..1];
      OneBit();
    } else if Take(w, 1, 1) == 1 {
      TwoBits(w, 1);
      LowBitsOfTake(w, 2, 4);
      assert w[2..6] == w[2..];
    } else {
      LongIsLonger(w);
      TwoBits(w, 0);
      ShortestLong(w, run);
    }
  }

  lemma OneBit()
    ensures LowBits(1, 1) == [1]
  {
  }

  lemma LongIsLonger(w: seq<Bit>)
    ensures ReadLong(w, 2, []).Block? ==> ReadLong(w, 2, []).next >= 3
  {
  }

  /** The number of bits a run takes: one, six, or two and eight for each group of seven bits. */
  function RunSize(run: Uint64): nat {
    if run == 1 then 1 else if run < 16 then 6 else 2 + 8 * |Varint.Put(run)|
  }

  function CodeSize(runs: seq<Uint64>): nat {
    if runs == [] then 0 else RunSize(runs[0]) + CodeSize(runs[1..])
  }

  lemma {:induction false} CodeSizeIs(runs: seq<Uint64>)
    ensures |RunsBits(runs)| == CodeSize(runs)
  {
    if runs != [] { CodeSizeIs(runs[1..]); }
  }

  /** For one, the numbers from 0 to 4 are a single run of five: nine bits in two bytes. */
  lemma FiveInARow()
    ensures RunsOf([0, 1, 2, 3, 4]) == [5] && FirstBit([0, 1, 2, 3, 4]) == 1
    ensures EncodedBits(1, [5]) == [0, 0, 1, 0, 1, 1, 0, 1, 0]
    ensures AllBits([180, 0])[..9] == EncodedBits(1, [5])
  {
    hide RunsOf, EncodedBits, AllBits;
    RunsOfFive();
    CodeOfFive();
    BitsOf180();
  }

  lemma RunsOfFive()
    ensures RunsOf([0, 1, 2, 3, 4]) == [5]
  {
    hide RunsOf;
    RunsOfShort([0]);
    OneMoreInRow([0, 1], 1);
    OneMoreInRow([0, 1, 2], 2);
    OneMoreInRow([0, 1, 2, 3], 3);
    OneMoreInRow([0, 1, 2, 3, 4], 4);
    assert [0, 1][..1] == [0] && [0, 1, 2][..2] == [0, 1] && [0, 1, 2, 3][..3] == [0, 1, 2];
    assert [0, 1, 2, 3, 4][..4] == [0, 1, 2, 3];
  }

  lemma OneMoreInRow(s: seq<Uint64>, n: Uint64)
    requires |s| > 1 && s[|s| - 1] == s[|s| - 2] as int + 1 && n < 5
    ensures RunsOf(s[..|s| - 1]) == [n] ==> RunsOf(s) == [n + 1]
  {
    hide RunsOf;
    RunsOfMore(s);
  }

  lemma CodeOfFive()
    ensures EncodedBits(1, [5]) == [0, 0, 1, 0, 1, 1, 0, 1, 0]
  {
    assert LowBits(5, 4) == [1, 0, 1, 0];
    assert [5][1..] == [];
  }

  lemma BitsOf180()
    ensures AllBits([180, 0])[..9] == [0, 0, 1, 0, 1, 1, 0, 1, 0]
  {
    hide BitOf;
    HighBitsOf180();
    var bits := AllBits([180, 0]);
    assert bits[0] == 0 && bits[1] == 0 && bits[2] == 1 && bits[3] == 0 && bits[4] == 1;
    assert bits[5] == 1 && bits[6] == 0 && bits[7] == 1 && bits[8] == 0;
  }

  lemma LowBitsOf22()
    ensures BitOf(22, 0) == 0 && BitOf(22, 1) == 1 && BitOf(22, 2) == 1 && BitOf(22, 3) == 0 && BitOf(22, 4) == 1
  {
    assert BitOf(5, 0) == 1 && BitOf(5, 1) == 0 && BitOf(5, 2) == 1;
  }

  lemma HighBitsOf180()
    ensures BitOf(180, 0) == 0 && BitOf(180, 1) == 0 && BitOf(180, 2) == 1 && BitOf(180, 3) == 0
    ensures BitOf(180, 4) == 1 && BitOf(180, 5) == 1 && BitOf(180, 6) == 0 && BitOf(180, 7) == 1 && BitOf(0, 0) == 0
  {
    LowBitsOf22();
    forall k | 0 <= k < 5 ensures BitOf(180, k + 3) == BitOf(22, k) {
      assert BitOf(180, k + 3) == BitOf(90, k + 2) == BitOf(45, k + 1);
    }
    assert BitOf(180, 0 + 3) == 0 && BitOf(180, 1 + 3) == 1 && BitOf(180, 2 + 3) == 1;
    assert BitOf(180, 3 + 3) == 0 && BitOf(180, 4 + 3) == 1;
  }

  // ----- what is refused -----

  /** A long block is refused if and only if eleven bytes go by without an end. */
  lemma {:induction false} BadLongIff(bits: seq<Bit>, pos: nat, buf: seq<Byte>)
    requires |buf| <= 10
    ensures ReadLong(bits, pos, buf).BadBlock? <==> AllHigh(bits, pos, 10 - |buf|)
    decreases 10 - |buf|
  {
    hide Take, Varint.Get;
    Pow2Of8();
    var b := Take(bits, pos, 8);
    AllHighFirst(bits, pos, 10 - |buf|);
    if b >= 128 && |buf| < 10 { BadLongIff(bits, pos + 8, buf + [b]); }
  }

  /** The bytes from `pos` on all have the top bit set, `n` after the first one. */
  predicate AllHigh(bits: seq<Bit>, pos: nat, n: int) {
    forall j | 0 <= j <= n :: Take(bits, pos + 8 * j, 8) >= 128
  }

  lemma AllHighFirst(bits: seq<Bit>, pos: nat, n: nat)
    ensures AllHigh(bits, pos, n) <==> Take(bits, pos, 8) >= 128 && AllHigh(bits, pos + 8, n - 1)
  {
    hide Take;
    if AllHigh(bits, pos, n) {
      assert Take(bits, pos + 8 * 0, 8) >= 128;
      forall j | 0 <= j <= n - 1 ensures Take(bits, pos + 8 + 8 * j, 8) >= 128 {
        assert Take(bits, pos + 8 * (j + 1), 8) >= 128;
      }
    }
    if Take(bits, pos, 8) >= 128 && AllHigh(bits, pos + 8, n - 1) {
      forall j | 0 <= j <= n ensures Take(bits, pos + 8 * j, 8) >= 128 {
        if j > 0 { assert Take(bits, pos + 8 + 8 * (j - 1), 8) >= 128; }
      }
    }
  }

  lemma BadBlockIff(bits: seq<Bit>, pos: nat)
    ensures ReadBlock(bits, pos).BadBlock? <==>
              Peek(bits, pos) == 0 && Peek(bits, pos + 1) == 0 && AllHigh(bits, pos + 2, 10)
  {
    hide ReadLong;
    BadLongIff(bits, pos + 2, []);
  }

  lemma {:induction false} OnlyBadBlocksFail(bits: seq<Bit>, pos: nat, curIdx: Uint64, curBit: Bit)
    ensures var r := DecodeFrom(bits, pos, curIdx, curBit); r.Err? ==> r.error == BadEncoding
    decreases if pos < |bits| then |bits| - pos else 0
  {
    hide ReadBlock, Members;
    var b := ReadBlock(bits, pos);
    if b.Block? && !b.last { OnlyBadBlocksFail(bits, b.next, Wrap(curIdx + ToInt64(b.length)), 1 - curBit); }
  }

  /** The version is wrong if and only if the low two bits of the first byte are not zero. */
  lemma WrongVersionIff(buf: seq<Byte>)
    ensures DecodeBytes(buf) == Err(WrongVersion) <==> buf != [] && buf[0] % 4 != 0
  {
    hide DecodeFrom, Take, AllBits;
    if buf != [] {
      var bits := AllBits(buf);
      OnlyBadBlocksFail(bits, 3, 0, Peek(bits, 2));
      LowTwoBits(buf);
    }
  }

  lemma LowTwoBits(buf: seq<Byte>)
    requires buf != []
    ensures Take(AllBits(buf), 0, 2) == buf[0] % 4
  {
    hide Take;
    var bits, b := AllBits(buf), buf[0];
    TakeFirst(bits, 0, 2);
    TakeFirst(bits, 1, 1);
    TakeFirst(bits, 2, 0);
    assert Peek(bits, 0) == BitOf(b, 0) && Peek(bits, 1) == BitOf(b, 1);
    assert BitOf(b, 0) == b % 2 && BitOf(b, 1) == b / 2 % 2;
  }

  lemma TakeFirst(bits: seq<Bit>, pos: nat, count: nat)
    ensures Take(bits, pos, count) == if count == 0 then 0 else Peek(bits, pos) + 2 * Take(bits, pos + 1, count - 1)
  {
  }

  // ----- what runs stand for -----

  function Sum(runs: seq<Uint64>): nat {
    if runs == [] then 0 else runs[0] + Sum(runs[1..])
  }

  function Interval(start: nat, length: nat): seq<nat> {
    seq(length, j => start + j)
  }

  /** The set members described by runs of alternating bits starting at `idx`. */
  function Expand(bit: Bit, runs: seq<Uint64>, idx: nat): seq<nat>
    decreases |runs|
  {
    if runs == [] then []
    else (if bit == 1 then Interval(idx, runs[0]) else []) + Expand(1 - bit, runs[1..], idx + runs[0])
  }

  /** Runs as `RunLengths` makes them: none empty, all within 64 bits, and no run of ones longer
      than a slice can be. */
  predicate Proper(bit: Bit, runs: seq<Uint64>, idx: nat) {
    && idx + Sum(runs) <= TWO_64
    && forall i | 0 <= i < |runs| :: 0 < runs[i] && (i % 2 == 1 - bit ==> runs[i] < TWO_63)
  }

  /** Zeroes only, from a position on. */
  predicate ZeroFrom(bits: seq<Bit>, pos: nat) {
    forall i | pos <= i < |bits| :: bits[i] == 0
  }

  /** `code` is found at `pos`. */
  predicate At(bits: seq<Bit>, pos: nat, code: seq<Bit>) {
    pos + |code| <= |bits| && bits[pos..pos + |code|] == code
  }

  lemma AtSplit(bits: seq<Bit>, pos: nat, a: seq<Bit>, b: seq<Bit>)
    requires At(bits, pos, a + b)
    ensures At(bits, pos, a) && At(bits, pos + |a|, b)
  {
    var s := bits[pos..pos + |a + b|];
    assert bits[pos..pos + |a|] == s[..|a|] == a;
    assert bits[pos + |a|..pos + |a| + |b|] == s[|a|..] == b;
  }

  lemma TakeAt(bits: seq<Bit>, pos: nat, n: nat, count: nat)
    requires n < Pow2(count) && At(bits, pos, LowBits(n, count))
    ensures Take(bits, pos, count) == n
  {
    TakeWithin(bits, pos, count);
    NumberOfLowBits(n, count);
  }

  lemma TakeOneAt(bits: seq<Bit>, pos: nat, bit: Bit)
    requires At(bits, pos, [bit])
    ensures Take(bits, pos, 1) == bit
  {
    assert bits[pos] == bits[pos..pos + 1][0];
  }

  /** The bytes of a varint are read back one by one. */
  lemma {:induction false} ReadLongAt(bits: seq<Bit>, pos: nat, buf: seq<Byte>, bytes: seq<Byte>)
    requires |buf| + |bytes| <= 10 && Varint.Terminated(bytes) && At(bits, pos, ByteBits(bytes))
    ensures var x := Varint.Get(buf + bytes);
            ReadLong(bits, pos, buf) == Block(x, pos + 8 * |bytes|, x == 0)
    decreases |bytes|
  {
    hide Take, LowBits, Varint.Get;
    Pow2Of8();
    AtSplit(bits, pos, LowBits(bytes[0], 8), ByteBits(bytes[1..]));
    TakeAt(bits, pos, bytes[0], 8);
    if |bytes| == 1 {
      assert bytes == [bytes[0]];
    } else {
      assert bytes[0] >= 128;
      var rest := bytes[1..];
      assert rest[|rest| - 1] == bytes[|bytes| - 1];
      ReadLongAt(bits, pos + 8, buf + [bytes[0]], rest);
      assert buf + [bytes[0]] + rest == buf + bytes;
    }
  }

  lemma ReadTag(bits: seq<Bit>, pos: nat, tag: Bit, body: seq<Bit>)
    requires At(bits, pos, [0, tag] + body)
    ensures Take(bits, pos, 1) == 0 && Take(bits, pos + 1, 1) == tag && At(bits, pos + 2, body)
  {
    hide Take;
    assert [0, tag] + body == [0] + ([tag] + body);
    AtSplit(bits, pos, [0], [tag] + body);
    AtSplit(bits, pos + 1, [tag], body);
    TakeOneAt(bits, pos, 0);
    TakeOneAt(bits, pos + 1, tag);
  }

  lemma ReadShortAt(bits: seq<Bit>, pos: nat, run: Uint64)
    requires run < 16 && At(bits, pos, [0, 1] + LowBits(run, 4))
    ensures ReadBlock(bits, pos) == Block(run, pos + 6, false)
  {
    hide Take, LowBits, ReadLong;
    Pow2Of8();
    ReadTag(bits, pos, 1, LowBits(run, 4));
    TakeAt(bits, pos + 2, run, 4);
  }

  lemma ReadVarintAt(bits: seq<Bit>, pos: nat, run: Uint64)
    requires 0 < run && At(bits, pos, [0, 0] + ByteBits(Varint.Put(run)))
    ensures ReadBlock(bits, pos) == Block(run, pos + 2 + 8 * |Varint.Put(run)|, false)
  {
    hide Take, LowBits, ReadLong, ByteBits, Varint.Put, Varint.Get;
    ReadTag(bits, pos, 0, ByteBits(Varint.Put(run)));
    Varint.PutIsTerminated(run);
    Varint.GetPut(run);
    assert [] + Varint.Put(run) == Varint.Put(run);
    ReadLongAt(bits, pos + 2, [], Varint.Put(run));
  }

  /** Every run, up to 2^64 - 1, is read back from its code. */
  lemma ReadBlockAt(bits: seq<Bit>, pos: nat, run: Uint64)
    requires 0 < run && At(bits, pos, RunBits(run))
    ensures ReadBlock(bits, pos) == Block(run, pos + |RunBits(run)|, false)
  {
    hide LowBits, ReadLong, ByteBits, Varint.Put;
    if run == 1 {
      TakeOneAt(bits, pos, 1);
    } else if run < 16 {
      ReadShortAt(bits, pos, run);
    } else {
      ReadVarintAt(bits, pos, run);
    }
  }

  /** Zero bits end the encoding. */
  lemma ReadZeroes(bits: seq<Bit>, pos: nat)
    requires ZeroFrom(bits, pos)
    ensures ReadBlock(bits, pos) == Block(0, pos + 10, true)
  {
    TakeZeroes(bits, pos, 1);
    TakeZeroes(bits, pos + 1, 1);
    TakeZeroes(bits, pos + 2, 8);
    Varint.GetPut(0);
    assert [] + [0] == Varint.Put(0);
  }

  lemma MembersAreInterval(start: nat, run: Uint64)
    requires start + run <= TWO_64 && run < TWO_63
    ensures Members(Wrap(start), ToInt64(run)) == Interval(start, run)
  {
    if run > 0 {
      assert Wrap(start) == start;
      forall j | 0 <= j < run ensures Members(start, run)[j] == Interval(start, run)[j] { }
    }
  }

  lemma WrapSum(start: nat, run: Uint64)
    ensures Wrap(Wrap(start) + ToInt64(run)) == Wrap(start + run)
  {
  }

  /** Decoding the code of runs, followed by nothing but zeroes, gives what the runs stand for,
      although lengths are taken as ints and the index wraps. */
  lemma {:induction false} DecodeRuns(bits: seq<Bit>, pos: nat, bit: Bit, runs: seq<Uint64>, idx: nat)
    requires Proper(bit, runs, idx)
    requires At(bits, pos, RunsBits(runs)) && ZeroFrom(bits, pos + |RunsBits(runs)|)
    ensures DecodeFrom(bits, pos, Wrap(idx), bit) == Ok(Expand(bit, runs, idx))
    decreases |runs|
  {
    hide ReadBlock, RunBits, Wrap, Members, Interval;
    if runs == [] {
      ReadZeroes(bits, pos);
      NoMembers(Wrap(idx));
    } else {
      var run, rest := runs[0], runs[1..];
      AtSplit(bits, pos, RunBits(run), RunsBits(rest));
      ReadBlockAt(bits, pos, run);
      assert forall i | 0 <= i < |rest| :: rest[i] == runs[i + 1];
      DecodeRuns(bits, pos + |RunBits(run)|, 1 - bit, rest, idx + run);
      WrapSum(idx, run);
      if bit == 1 { MembersAreInterval(idx, run); }
    }
  }

  lemma NoMembers(start: Uint64)
    ensures Members(start, ToInt64(0)) == []
  {
  }

  lemma Header(bits: seq<Bit>, firstBit: Bit, rest: seq<Bit>)
    requires At(bits, 0, [0, 0, firstBit] + rest)
    ensures Take(bits, 0, 2) == 0 && Peek(bits, 2) == firstBit && At(bits, 3, rest)
  {
    assert LowBits(0, 2) == [0, 0];
    assert [0, 0, firstBit] + rest == LowBits(0, 2) + ([firstBit] + rest);
    AtSplit(bits, 0, LowBits(0, 2), [firstBit] + rest);
    TakeAt(bits, 0, 0, 2);
    AtSplit(bits, 2, [firstBit], rest);
    assert bits[2..3][0] == bits[2];
  }

  /** Round trip on encodings: the bytes of proper runs, padded with zero bits to a byte
      boundary, decode to what the runs stand for. */
  lemma DecodeEncoded(buf: seq<Byte>, firstBit: Bit, runs: seq<Uint64>)
    requires Proper(firstBit, runs, 0)
    requires var code := EncodedBits(firstBit, runs);
             At(AllBits(buf), 0, code) && ZeroFrom(AllBits(buf), |code|)
    ensures DecodeBytes(buf) == Ok(Expand(firstBit, runs, 0))
  {
    hide AllBits, DecodeFrom, RunsBits, Expand, Take;
    var bits := AllBits(buf);
    Header(bits, firstBit, RunsBits(runs));
    DecodeRuns(bits, 3, firstBit, runs, 0);
  }

  // ----- run lengths -----

  function FirstBit(s: seq<Uint64>): Bit {
    if s != [] && s[0] == 0 then 1 else 0
  }

  /** `RunLengths` of a sorted list; arithmetic is on 64 bits. */
  function RunsOf(s: seq<Uint64>): (r: seq<Uint64>)
    ensures s != [] ==> r != []
  {
    if s == [] then []
    else if |s| == 1 then (if s[0] == 0 then [] else [s[0]]) + [1]
    else
      var runs := RunsOf(s[..|s| - 1]);
      var delta := Wrap(s[|s| - 1] as int - s[|s| - 2]);
      if delta == 1 then runs[|runs| - 1 := Wrap(runs[|runs| - 1] as int + 1)]
      else if delta > 1 then runs + [delta - 1, 1]
      else runs
  }

  predicate Ascending(s: seq<Uint64>) {
    forall i, j | 0 <= i < j < |s| :: s[i] <= s[j]
  }

  predicate StrictlyAscending(s: seq<Uint64>) {
    forall i, j | 0 <= i < j < |s| :: s[i] < s[j]
  }

  predicate NumberLess(a: Uint64, b: Uint64) {
    a < b
  }

  /** Without repetitions a sorted list is the ascending list of its elements. */
  lemma UniqIsAscending(s: seq<Uint64>)
    requires Ascending(s)
    ensures StrictlyAscending(GoSort.Uniq(s))
    ensures forall x :: x in GoSort.Uniq(s) <==> x in s
  {
    GoSort.UniqFacts(s, NumberLess);
    var u := GoSort.Uniq(s);
    forall i, j | 0 <= i < j < |u| ensures u[i] < u[j] { assert NumberLess(u[i], u[j]); }
  }

  lemma {:induction false} SumSnoc(runs: seq<Uint64>, run: Uint64)
    ensures Sum(runs + [run]) == Sum(runs) + run
  {
    if runs == [] {
      assert runs + [run] == [run] && [run][1..] == [];
    } else {
      SumSnoc(runs[1..], run);
      assert (runs + [run])[1..] == runs[1..] + [run];
    }
  }

  /** The bit of run number `k`. */
  function BitAt(bit: Bit, k: nat): Bit {
    if k % 2 == 0 then bit else 1 - bit
  }

  lemma {:induction false} ExpandSnoc(bit: Bit, runs: seq<Uint64>, idx: nat, run: Uint64)
    ensures Expand(bit, runs + [run], idx) ==
              Expand(bit, runs, idx) + if BitAt(bit, |runs|) == 1 then Interval(idx + Sum(runs), run) else []
    decreases |runs|
  {
    hide Interval, Sum, Expand;
    NoRuns();
    if runs == [] {
      assert runs + [run] == [run] && [run][1..] == [];
      ExpandFirst(bit, [run], idx);
      ExpandNone(1 - bit, idx + run);
      ExpandNone(bit, idx);
    } else {
      ExpandSnoc(1 - bit, runs[1..], idx + runs[0], run);
      ExpandFirst(bit, runs, idx);
      ExpandFirst(bit, runs + [run], idx);
      assert (runs + [run])[1..] == runs[1..] + [run];
      assert BitAt(bit, |runs|) == BitAt(1 - bit, |runs[1..]|);
    }
  }

  lemma ExpandFirst(bit: Bit, runs: seq<Uint64>, idx: nat)
    requires runs != []
    ensures Expand(bit, runs, idx) ==
              (if bit == 1 then Interval(idx, runs[0]) else []) + Expand(1 - bit, runs[1..], idx + runs[0])
    ensures Sum(runs) == runs[0] + Sum(runs[1..])
  {
  }

  lemma ExpandNone(bit: Bit, idx: nat)
    ensures Expand(bit, [], idx) == []
  {
  }

  lemma LastRun(bit: Bit, runs: seq<Uint64>, run: Uint64)
    requires runs != []
    ensures var r := runs[..|runs| - 1] + [run];
            && r == runs[|runs| - 1 := run]
            && Sum(r) == Sum(runs[..|runs| - 1]) + run
            && Expand(bit, r, 0) == Expand(bit, runs[..|runs| - 1], 0)
                 + if BitAt(bit, |runs| - 1) == 1 then Interval(Sum(runs[..|runs| - 1]), run) else []
  {
    SumSnoc(runs[..|runs| - 1], run);
    ExpandSnoc(bit, runs[..|runs| - 1], 0, run);
  }

  /** What holds of the runs of a nonempty sorted list: the last one is of ones and ends at the
      last element, no run is empty, and no run of ones is longer than the list. */
  predicate RunsFit(s: seq<Uint64>, bit: Bit, runs: seq<Uint64>)
    requires s != []
  {
    && runs != []
    && BitAt(bit, |runs| - 1) == 1
    && Sum(runs) == s[|s| - 1] as int + 1
    && forall i | 0 <= i < |runs| :: 0 < runs[i] && (BitAt(bit, i) == 1 ==> runs[i] <= |s|)
  }

  lemma LengthenRun(s: seq<Uint64>, bit: Bit, runs: seq<Uint64>)
    requires |s| > 1 && |s| < TWO_63 && s[|s| - 1] == s[|s| - 2] as int + 1
    requires RunsFit(s[..|s| - 1], bit, runs)
    ensures var r := runs[|runs| - 1 := Wrap(runs[|runs| - 1] as int + 1)];
            RunsFit(s, bit, r) && Expand(bit, r, 0) == Expand(bit, runs, 0) + [s[|s| - 1]]
  {
    hide Sum, Expand;
    var last, init := runs[|runs| - 1], runs[..|runs| - 1];
    LastRun(bit, runs, last);
    LastRun(bit, runs, Wrap(last + 1));
    assert init + [last] == runs;
    assert Interval(Sum(init), last + 1) == Interval(Sum(init), last) + [s[|s| - 1]];
  }

  lemma KeepRuns(s: seq<Uint64>, bit: Bit, runs: seq<Uint64>)
    requires |s| > 1 && s[|s| - 1] == s[|s| - 2] && RunsFit(s[..|s| - 1], bit, runs)
    ensures RunsFit(s, bit, runs)
  {
    hide Sum;
  }

  lemma AddRuns(s: seq<Uint64>, bit: Bit, runs: seq<Uint64>, delta: Uint64)
    requires |s| > 1 && delta > 1 && s[|s| - 1] == s[|s| - 2] as int + delta
    requires RunsFit(s[..|s| - 1], bit, runs)
    ensures var r := runs + [delta - 1, 1];
            RunsFit(s, bit, r) && Expand(bit, r, 0) == Expand(bit, runs, 0) + [s[|s| - 1]]
  {
    hide Sum, Expand;
    var mid := runs + [delta - 1];
    assert runs + [delta - 1, 1] == mid + [1];
    SumSnoc(runs, delta - 1);
    SumSnoc(mid, 1);
    ExpandSnoc(bit, runs, 0, delta - 1);
    ExpandSnoc(bit, mid, 0, 1);
    assert Interval(Sum(mid), 1) == [s[|s| - 1]];
    assert Expand(bit, runs, 0) + [] == Expand(bit, runs, 0);
  }

  lemma RunsOfOne(s: seq<Uint64>)
    requires |s| == 1
    ensures RunsFit(s, FirstBit(s), RunsOf(s)) && Expand(FirstBit(s), RunsOf(s), 0) == s
  {
    hide Expand, Sum, RunsFit;
    if s[0] == 0 {
      assert RunsOf(s) == [1];
      OneRun(s);
    } else {
      assert RunsOf(s) == [s[0], 1];
      TwoRuns(s);
    }
  }

  lemma OneRun(s: seq<Uint64>)
    requires |s| == 1 && s[0] == 0
    ensures RunsFit(s, 1, [1]) && Expand(1, [1], 0) == s
  {
    hide Expand, Sum;
    NoRuns();
    assert [] + [1] == [1];
    SumSnoc([], 1);
    ExpandSnoc(1, [], 0, 1);
    assert Interval(0, 1) == s;
  }

  lemma TwoRuns(s: seq<Uint64>)
    requires |s| == 1 && s[0] > 0
    ensures RunsFit(s, 0, [s[0], 1]) && Expand(0, [s[0], 1], 0) == s
  {
    hide Expand, Sum;
    NoRuns();
    assert [] + [s[0]] == [s[0]] && [s[0]] + [1] == [s[0], 1];
    SumSnoc([], s[0]);
    SumSnoc([s[0]], 1);
    ExpandSnoc(0, [], 0, s[0]);
    ExpandSnoc(0, [s[0]], 0, 1);
    assert Interval(s[0], 1) == s;
  }

  lemma NoRuns()
    ensures Sum([]) == 0 && forall bit: Bit :: Expand(bit, [], 0) == []
  {
  }

  /** The runs of a sorted list stand for the list without repetitions. */
  lemma {:induction false} RunsStandForList(s: seq<Uint64>)
    requires s != [] && Ascending(s) && |s| < TWO_63
    ensures RunsFit(s, FirstBit(s), RunsOf(s))
    ensures Expand(FirstBit(s), RunsOf(s), 0) == GoSort.Uniq(s)
  {
    hide Sum, Expand, RunsOf, RunsFit;
    if |s| == 1 {
      RunsOfOne(s);
    } else {
      var init := s[..|s| - 1];
      RunsStandForList(init);
      RunsOfMore(s);
      var delta := s[|s| - 1] as int - s[|s| - 2];
      if delta == 1 {
        LengthenRun(s, FirstBit(s), RunsOf(init));
      } else if delta > 1 {
        AddRuns(s, FirstBit(s), RunsOf(init), delta);
      } else {
        KeepRuns(s, FirstBit(s), RunsOf(init));
      }
    }
  }

  lemma RunsOfMore(s: seq<Uint64>)
    requires |s| > 1 && s[|s| - 2] <= s[|s| - 1]
    ensures var runs, delta := RunsOf(s[..|s| - 1]), s[|s| - 1] as int - s[|s| - 2];
            RunsOf(s) == if delta == 1 then runs[|runs| - 1 := Wrap(runs[|runs| - 1] as int + 1)]
                         else if delta > 1 then runs + [delta - 1, 1]
                         else runs
  {
    assert Wrap(s[|s| - 1] as int - s[|s| - 2]) == s[|s| - 1] - s[|s| - 2];
  }

  lemma RunsAreProper(s: seq<Uint64>)
    requires Ascending(s) && |s| < TWO_63
    ensures Proper(FirstBit(s), RunsOf(s), 0)
    ensures Expand(FirstBit(s), RunsOf(s), 0) == GoSort.Uniq(s)
  {
    if s != [] { RunsStandForList(s); }
  }

  /** Round trip: the encoding of a sorted list of any 64-bit numbers, repetitions included,
      decodes to the ascending list of its elements. */
  lemma RoundTrip(s: seq<Uint64>, buf: seq<Byte>)
    requires Ascending(s) && |s| < TWO_63
    requires var code := EncodedBits(FirstBit(s), RunsOf(s));
             At(AllBits(buf), 0, code) && ZeroFrom(AllBits(buf), |code|)
    ensures DecodeBytes(buf) == Ok(GoSort.Uniq(s))
    ensures StrictlyAscending(GoSort.Uniq(s)) && forall x :: x in GoSort.Uniq(s) <==> x in s
  {
    RunsAreProper(s);
    DecodeEncoded(buf, FirstBit(s), RunsOf(s));
    UniqIsAscending(s);
  }

  // ----- termination -----

  /** The number of blocks `Decode` reads. */
  function BlocksRead(bits: seq<Bit>, pos: nat): nat
    decreases if pos < |bits| then |bits| - pos else 0
  {
    var b := ReadBlock(bits, pos);
    if b.BadBlock? || b.last then 1 else 1 + BlocksRead(bits, b.next)
  }

  /** Decoding reads at most one block for each bit left, and one beyond the end. */
  lemma {:induction false} BlocksAreBounded(bits: seq<Bit>, pos: nat)
    ensures BlocksRead(bits, pos) <= 1 + if pos < |bits| then |bits| - pos else 0
    decreases if pos < |bits| then |bits| - pos else 0
  {
    hide ReadBlock;
    var b := ReadBlock(bits, pos);
    if b.Block? && !b.last { BlocksAreBounded(bits, b.next); }
  }

  // ----- the operations -----

  /** `RunLengths`; it sorts its argument in place. */
  method RunLengths(ints: array<Uint64>) returns (firstBit: Bit, runs: seq<Uint64>)
    modifies ints
    ensures multiset(ints[..]) == multiset(old(ints[..])) && Ascending(ints[..])
    ensures firstBit == FirstBit(ints[..]) && runs == RunsOf(ints[..])
  {
    hide RunsOf;
    if ints.Length == 0 {
      RunsOfShort(ints[..]);
      return 0, [];
    }
    SortInPlace(ints);
    ghost var s := ints[..];
    var prev := ints[0];
    firstBit, runs := 0, [];
    if prev == 0 {
      firstBit := 1;
    }
    if firstBit == 0 {
      runs := runs + [prev];
    }
    runs := runs + [1];
    RunsOfShort(s[..1]);
    var i := 1;
    while i < ints.Length
      invariant 1 <= i <= ints.Length && ints[..] == s
      invariant prev == ints[i - 1] && runs == RunsOf(s[..i])
    {
      var cur := ints[i];
      assert s[..i + 1][..i] == s[..i];
      RunsOfMore(s[..i + 1]);
      var delta := Wrap(cur as int - prev);
      if delta == 1 {
        runs := runs[|runs| - 1 := Wrap(runs[|runs| - 1] as int + 1)];
      } else if delta > 1 {
        runs := runs + [delta - 1];
        runs := runs + [1];
      }
      prev := cur;
      i := i + 1;
    }
    assert s[..i] == s;
  }

  lemma RunsOfShort(s: seq<Uint64>)
    requires |s| <= 1
    ensures RunsOf(s) == if s == [] then [] else (if s[0] == 0 then [] else [s[0]]) + [1]
  {
  }

  method SortInPlace(ints: array<Uint64>)
    modifies ints
    ensures multiset(ints[..]) == multiset(old(ints[..])) && Ascending(ints[..])
  {
    var sorted := GoSort.SortSlice(ints[..], NumberLess);
    GoSort.SameElements(sorted, ints[..]);
    forall i | 0 <= i < ints.Length {
      ints[i] := sorted[i];
    }
    assert ints[..] == sorted;
  }

  /** `Encode`: the bytes and the number of bits in them.  It cannot fail, and what it returns
      decodes to the ascending list of the numbers given. */
  method Encode(ints: array<Uint64>) returns (buf: seq<Byte>, length: nat)
    requires ints.Length < TWO_63
    modifies ints
    ensures var code := EncodedBits(FirstBit(ints[..]), RunsOf(ints[..]));
            length == |code| && |buf| == (length + 7) / 8 && AllBits(buf)[..length] == code
    ensures length == 3 + CodeSize(RunsOf(ints[..]))
    ensures multiset(ints[..]) == multiset(old(ints[..])) && Ascending(ints[..])
    ensures DecodeBytes(buf) == Ok(GoSort.Uniq(ints[..]))
    ensures StrictlyAscending(GoSort.Uniq(ints[..])) && forall x :: x in GoSort.Uniq(ints[..]) <==> x in old(ints[..])
  {
    hide *;
    var firstBit, runs := RunLengths(ints);
    var v := new BitVector();
    v.Extend(0, 2);
    v.Push(firstBit);
    HeaderBits(firstBit);
    PushRuns(v, runs);
    buf, length := v.Buf, v.Len;
    EncodedFits(v, firstBit, runs);
    CodeSizeIs(runs);
    RoundTrip(ints[..], buf);
    GoSort.SameElements(ints[..], old(ints[..]));
  }

  lemma HeaderBits(firstBit: Bit)
    ensures [] + LowBits(0, 2) + [firstBit % 2] == [0, 0, firstBit]
  {
    assert LowBits(0, 2) == [0, 0];
  }

  lemma EncodedFits(v: BitVector, firstBit: Bit, runs: seq<Uint64>)
    requires v.Valid() && v.Bits() == [0, 0, firstBit] + RunsBits(runs)
    ensures var code := EncodedBits(firstBit, runs);
            && v.Len == |code| == 3 + |RunsBits(runs)| && |v.Buf| == (v.Len + 7) / 8 && v.Len <= 8 * |v.Buf|
            && AllBits(v.Buf)[..v.Len] == code
            && At(AllBits(v.Buf), 0, code) && ZeroFrom(AllBits(v.Buf), |code|)
  {
    hide RunsBits;
    PaddingIsZero(v);
    assert AllBits(v.Buf)[0..v.Len] == AllBits(v.Buf)[..v.Len];
  }

  method PushRuns(v: BitVector, runs: seq<Uint64>)
    requires v.Valid()
    modifies v
    ensures v.Valid() && v.Bits() == old(v.Bits()) + RunsBits(runs)
  {
    hide AllBits, RunBits;
    for i := 0 to |runs|
      invariant v.Valid() && v.Bits() == old(v.Bits()) + RunsBits(runs[..i])
    {
      RunsBitsSnoc(runs[..i], runs[i]);
      assert runs[..i + 1] == runs[..i] + [runs[i]];
      PushRun(v, runs[i]);
    }
    assert runs[..|runs|] == runs;
  }

  method PushRun(v: BitVector, run: Uint64)
    requires v.Valid()
    modifies v
    ensures v.Valid() && v.Bits() == old(v.Bits()) + RunBits(run)
  {
    hide BitVector.Valid, BitVector.Bits, LowBits, ByteBits, Varint.Put;
    if run == 1 {
      v.Push(1);
    } else if run < 16 {
      v.Push(0);
      v.Push(1);
      v.Extend(run, 4);
    } else {
      v.Push(0);
      v.Push(0);
      PushBytes(v, Varint.Put(run));
    }
  }

  method PushBytes(v: BitVector, bytes: seq<Byte>)
    requires v.Valid()
    modifies v
    ensures v.Valid() && v.Bits() == old(v.Bits()) + ByteBits(bytes)
  {
    hide AllBits, LowBits;
    for i := 0 to |bytes|
      invariant v.Valid() && v.Bits() + ByteBits(bytes[i..]) == old(v.Bits()) + ByteBits(bytes)
    {
      assert bytes[i..][1..] == bytes[i + 1..];
      v.Extend(bytes[i], 8);
    }
  }

  /** The bytes of a long block. */
  method ReadVarint(take: BitReader) returns (r: Block)
    modifies take
    ensures r == ReadLong(AllBits(take.buf), old(take.cursor), [])
    ensures r.Block? ==> take.cursor == r.next
  {
    hide AllBits, Take, Varint.Get;
    Pow2Of8();
    var buf: seq<Byte> := [];
    while true
      invariant |buf| <= 10
      invariant ReadLong(AllBits(take.buf), take.cursor, buf) == ReadLong(AllBits(take.buf), old(take.cursor), [])
      decreases 10 - |buf|
    {
      var b := take.Next(8);
      buf := buf + [b];
      if b < 128 { break; }
      if |buf| > 10 { return BadBlock; }
    }
    var x := Varint.Get(buf);
    r := Block(x, take.cursor, x == 0);
  }

  method NextBlock(take: BitReader) returns (r: Block)
    modifies take
    ensures r == ReadBlock(AllBits(take.buf), old(take.cursor))
    ensures r.Block? ==> take.cursor == r.next
  {
    hide AllBits, Take, ReadLong;
    Pow2Of8();
    var y := take.Next(1);
    if y == 1 { return Block(1, take.cursor, false); }
    var val := take.Next(1);
    if val == 1 {
      var n := take.Next(4);
      return Block(n, take.cursor, false);
    }
    r := ReadVarint(take);
  }

  function AfterMembers(done: seq<Uint64>, rest: Result<seq<Uint64>, DecodeError>): Result<seq<Uint64>, DecodeError> {
    match rest
    case Err(e) => Err(e)
    case Ok(more) => Ok(done + more)
  }

  lemma AfterNothing(r: Result<seq<Uint64>, DecodeError>)
    ensures AfterMembers([], r) == r
  {
    if r.Ok? { assert [] + r.value == r.value; }
  }

  lemma DecodeStep(bits: seq<Bit>, pos: nat, curIdx: Uint64, curBit: Bit, done: seq<Uint64>)
    ensures var b := ReadBlock(bits, pos);
            AfterMembers(done, DecodeFrom(bits, pos, curIdx, curBit)) ==
              if b.BadBlock? then Err(BadEncoding)
              else
                var done' := done + if curBit == 1 then Members(curIdx, ToInt64(b.length)) else [];
                if b.last then Ok(done')
                else AfterMembers(done', DecodeFrom(bits, b.next, Wrap(curIdx + ToInt64(b.length)), 1 - curBit))
  {
    hide ReadBlock, Members;
    var b := ReadBlock(bits, pos);
    if b.Block? && !b.last {
      var here := if curBit == 1 then Members(curIdx, ToInt64(b.length)) else [];
      var rest := DecodeFrom(bits, b.next, Wrap(curIdx + ToInt64(b.length)), 1 - curBit);
      if rest.Ok? { assert done + (here + rest.value) == done + here + rest.value; }
    }
  }

  /** `Decode`.  Whatever the bytes, it ends after at most eight blocks for each of them. */
  method Decode(buf: seq<Byte>) returns (r: Result<seq<Uint64>, DecodeError>, ghost blocks: nat)
    ensures r == DecodeBytes(buf)
    ensures blocks <= 8 * |buf|
  {
    hide AllBits, ReadBlock, DecodeFrom, Members;
    blocks := 0;
    if |buf| == 0 { return Ok([]), 0; }
    ghost var bits := AllBits(buf);
    var take := new BitReader(buf);
    var ver := take.Next(2);
    if ver != 0 { return Err(WrongVersion), 0; }
    Pow2Of8();
    assert Take(bits, 2, 1) == Peek(bits, 2);
    var curIdx: Uint64 := 0;
    var first := take.Next(1);
    var curBit: Bit := first;
    var ints: seq<Uint64> := [];
    var done := false;
    ghost var spec := DecodeFrom(bits, 3, 0, curBit);
    AfterNothing(spec);
    BlocksAreBounded(bits, 3);
    while !done
      invariant take.buf == buf && take.cursor >= 3
      invariant if done then Ok(ints) == spec
                else AfterMembers(ints, DecodeFrom(bits, take.cursor, curIdx, curBit)) == spec
      invariant (if done then blocks else blocks + BlocksRead(bits, take.cursor)) == BlocksRead(bits, 3)
      decreases if done then 0 else 1 + if take.cursor < |bits| then |bits| - take.cursor else 0
    {
      DecodeStep(bits, take.cursor, curIdx, curBit, ints);
      var b := NextBlock(take);
      blocks := blocks + 1;
      if b.BadBlock? { return Err(BadEncoding), blocks; }
      done := b.last;
      var runLength := ToInt64(b.length);
      if curBit == 1 {
        var run := RunMembers(curIdx, runLength);
        ints := ints + run;
      } else {
        assert ints + [] == ints;
      }
      curIdx := Wrap(curIdx as int + runLength);
      curBit := 1 - curBit;
    }
    r := Ok(ints);
  }

  method RunMembers(start: Uint64, runLength: int) returns (run: seq<Uint64>)
    ensures run == Members(start, runLength)
  {
    run := [];
    var j := 0;
    while j < runLength
      invariant 0 <= j && run == Members(start, j)
      invariant j == 0 || j <= runLength
    {
      run := run + [Wrap(start as int + j)];
      j := j + 1;
    }
  }
}
