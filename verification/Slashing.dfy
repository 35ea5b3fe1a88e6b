/** The consensus fault detector: two blocks of one miner for overlapping times. */
module Slashing {
  import opened Primitives
  import opened TipSets

  type Miner = seq<Byte>

  datatype Fault = Fault(block1: Block, block2: Block)

  /** A block that was checked, with the height of its parent. */
  datatype Checked = Checked(block: Block, parentHeight: Uint64)

  /** The first epoch of a block's interval; a 64-bit sum. */
  function Earliest(c: Checked): Uint64 {
    Wrap(c.parentHeight as int + 1)
  }

  predicate Covers(c: Checked, miner: Miner, e: nat) {
    c.block.miner == miner && Earliest(c) <= e <= c.block.height
  }

  /** The most recently checked block of a miner whose interval covers an epoch. */
  function Latest(h: seq<Checked>, miner: Miner, e: nat): Option<Block> {
    if h == [] then None
    else if Covers(h[|h| - 1], miner, e) then Some(h[|h| - 1].block)
    else Latest(h[..|h| - 1], miner, e)
  }

  /** A CID identifies a block. */
  predicate Identified(h: seq<Checked>) {
    forall i, j | 0 <= i < |h| && 0 <= j < |h| && h[i].block.cid == h[j].block.cid :: h[i].block == h[j].block
  }

  /** The faults emitted for `c`, after history `h`, in the epochs from `e` up to its height. */
  function FaultsFrom(h: seq<Checked>, c: Checked, e: nat): seq<Fault>
    decreases if e <= c.block.height then c.block.height - e + 1 else 0
  {
    if e > c.block.height then []
    else
      var seen := Latest(h, c.block.miner, e);
      (if seen.Some? && seen.value.cid != c.block.cid then [Fault(c.block, seen.value)] else [])
        + FaultsFrom(h, c, e + 1)
  }

  function FaultsOf(h: seq<Checked>): seq<Fault> {
    if h == [] then []
    else FaultsOf(h[..|h| - 1]) + FaultsFrom(h[..|h| - 1], h[|h| - 1], Earliest(h[|h| - 1]))
  }

  /** Check number `i` is the last one that covers the epoch. */
  predicate IsLastToCover(h: seq<Checked>, miner: Miner, e: nat, i: nat) {
    i < |h| && Covers(h[i], miner, e) && forall j | i < j < |h| :: !Covers(h[j], miner, e)
  }

  lemma {:induction false} LatestIsChecked(h: seq<Checked>, miner: Miner, e: nat)
    ensures var l := Latest(h, miner, e);
            if l.Some? then exists i: nat :: IsLastToCover(h, miner, e, i) && h[i].block == l.value
            else forall i | 0 <= i < |h| :: !Covers(h[i], miner, e)
  {
    if h != [] {
      var init := h[..|h| - 1];
      LatestIsChecked(init, miner, e);
      if Latest(h, miner, e).Some? {
        if Covers(h[|h| - 1], miner, e) {
          assert IsLastToCover(h, miner, e, |h| - 1);
        } else {
          var i: nat :| IsLastToCover(init, miner, e, i) && init[i].block == Latest(init, miner, e).value;
          assert IsLastToCover(h, miner, e, i);
        }
      } else {
        forall i | 0 <= i < |h| ensures !Covers(h[i], miner, e) {
          if i < |h| - 1 { assert h[i] == init[i]; }
        }
      }
    }
  }

  /** Two distinct blocks of one miner, both checked, with an epoch in common. */
  ghost predicate IsRealFault(h: seq<Checked>, f: Fault) {
    exists i, j, e :: IsOverlap(h, f, i, j, e)
  }

  predicate IsOverlap(h: seq<Checked>, f: Fault, i: nat, j: nat, e: nat) {
    && i < |h| && j < |h| && h[i].block == f.block1 && h[j].block == f.block2
    && f.block1.cid != f.block2.cid
    && Covers(h[i], f.block1.miner, e) && Covers(h[j], f.block1.miner, e)
  }

  lemma {:induction false} FaultsFromAreReal(h: seq<Checked>, c: Checked, e: nat, f: Fault)
    requires f in FaultsFrom(h, c, e) && Earliest(c) <= e
    ensures IsRealFault(h + [c], f)
    decreases if e <= c.block.height then c.block.height - e + 1 else 0
  {
    hide Latest;
    var seen := Latest(h, c.block.miner, e);
    if seen.Some? && f == Fault(c.block, seen.value) && seen.value.cid != c.block.cid {
      LatestIsChecked(h, c.block.miner, e);
      var j: nat :| IsLastToCover(h, c.block.miner, e, j) && h[j].block == seen.value;
      assert (h + [c])[j] == h[j] && (h + [c])[|h|] == c;
      assert IsOverlap(h + [c], f, |h|, j, e);
    } else {
      FaultsFromAreReal(h, c, e + 1, f);
    }
  }

  /** Soundness: every fault ever emitted names two distinct overlapping blocks of one miner. */
  lemma {:induction false} EveryFaultIsReal(h: seq<Checked>, f: Fault)
    requires f in FaultsOf(h)
    ensures IsRealFault(h, f)
  {
    var init, last := h[..|h| - 1], h[|h| - 1];
    assert h == init + [last];
    if f in FaultsOf(init) {
      EveryFaultIsReal(init, f);
      var i: nat, j: nat, e: nat :| IsOverlap(init, f, i, j, e);
      assert h[i] == init[i] && h[j] == init[j];
      assert IsOverlap(h, f, i, j, e);
    } else {
      FaultsFromAreReal(init, last, Earliest(last), f);
    }
  }

  /** Completeness: the first arrival of a block that overlaps an earlier one of the same miner
      emits a fault that names it. */
  lemma FirstArrivalIsCaught(h: seq<Checked>, c: Checked, i: nat, e: nat)
    requires i < |h| && Covers(h[i], c.block.miner, e) && Covers(c, c.block.miner, e)
    requires forall k | 0 <= k < |h| :: h[k].block.cid != c.block.cid
    ensures exists f :: f in FaultsFrom(h, c, Earliest(c)) && f.block1 == c.block
  {
    LatestIsChecked(h, c.block.miner, e);
    var seen := Latest(h, c.block.miner, e);
    var k: nat :| IsLastToCover(h, c.block.miner, e, k) && h[k].block == seen.value;
    CaughtAt(h, c, Earliest(c), e);
  }

  lemma {:induction false} CaughtAt(h: seq<Checked>, c: Checked, from: nat, e: nat)
    requires from <= e <= c.block.height
    requires Latest(h, c.block.miner, e).Some? && Latest(h, c.block.miner, e).value.cid != c.block.cid
    ensures Fault(c.block, Latest(h, c.block.miner, e).value) in FaultsFrom(h, c, from)
    decreases e - from
  {
    hide Latest;
    if from < e { CaughtAt(h, c, from + 1, e); }
  }

  // ----- faults by heights -----

  /** A block is higher than its parent, as block validation demands. */
  predicate Rises(c: Checked) {
    c.parentHeight < c.block.height
  }

  /** Different blocks of one miner, each higher than the parent of the other. */
  predicate Overlap(a: Checked, b: Checked) {
    && a.block.miner == b.block.miner && a.block.cid != b.block.cid
    && a.parentHeight < b.block.height && b.parentHeight < a.block.height
  }

  lemma CommonEpoch(a: Checked, b: Checked)
    requires Rises(a) && Rises(b) && a.block.miner == b.block.miner
    ensures a.parentHeight < b.block.height && b.parentHeight < a.block.height <==>
              exists e: nat :: Covers(a, b.block.miner, e) && Covers(b, b.block.miner, e)
  {
    var e: nat := if a.block.height <= b.block.height then a.block.height else b.block.height;
    if a.parentHeight < b.block.height && b.parentHeight < a.block.height {
      assert Covers(a, b.block.miner, e) && Covers(b, b.block.miner, e);
    }
  }

  lemma {:induction false} FirstFault(h: seq<Checked>, c: Checked, from: nat) returns (i: nat, e: nat)
    requires FaultsFrom(h, c, from) != [] && Earliest(c) <= from
    ensures i < |h| && Covers(h[i], c.block.miner, e) && Covers(c, c.block.miner, e) && h[i].block.cid != c.block.cid
    decreases if from <= c.block.height then c.block.height - from + 1 else 0
  {
    hide Latest;
    var seen := Latest(h, c.block.miner, from);
    if seen.Some? && seen.value.cid != c.block.cid {
      LatestIsChecked(h, c.block.miner, from);
      var k: nat :| IsLastToCover(h, c.block.miner, from, k) && h[k].block == seen.value;
      i, e := k, from;
    } else {
      i, e := FirstFault(h, c, from + 1);
    }
  }

  /** A block that comes for the first time is a fault if and only if some block checked before it
      overlaps it. */
  lemma CaughtIff(h: seq<Checked>, c: Checked)
    requires Rises(c) && forall k | 0 <= k < |h| :: Rises(h[k]) && h[k].block.cid != c.block.cid
    ensures FaultsFrom(h, c, Earliest(c)) != [] <==> exists i :: 0 <= i < |h| && Overlap(h[i], c)
  {
    hide FaultsFrom, Covers;
    if FaultsFrom(h, c, Earliest(c)) != [] {
      var i, e := FirstFault(h, c, Earliest(c));
      OfOneMiner(h[i], c, e);
      CommonEpoch(h[i], c);
      assert Overlap(h[i], c);
    }
    if i :| 0 <= i < |h| && Overlap(h[i], c) {
      CommonEpoch(h[i], c);
      var e: nat :| Covers(h[i], c.block.miner, e) && Covers(c, c.block.miner, e);
      FirstArrivalIsCaught(h, c, i, e);
    }
  }

  lemma OfOneMiner(a: Checked, b: Checked, e: nat)
    requires Covers(a, b.block.miner, e)
    ensures a.block.miner == b.block.miner
  {
  }

  /** The blocks of a fault were checked as numbers `i` and `j`, and overlap. */
  predicate OverlapAt(h: seq<Checked>, f: Fault, i: nat, j: nat) {
    i < |h| && j < |h| && h[i].block == f.block1 && h[j].block == f.block2 && Overlap(h[i], h[j])
  }

  /** Every fault ever emitted is of two blocks that overlap. */
  lemma EveryFaultOverlaps(h: seq<Checked>, f: Fault)
    requires f in FaultsOf(h) && forall k | 0 <= k < |h| :: Rises(h[k])
    ensures exists i: nat, j: nat :: OverlapAt(h, f, i, j)
  {
    hide FaultsOf;
    EveryFaultIsReal(h, f);
    var i: nat, j: nat, e: nat :| IsOverlap(h, f, i, j, e);
    CommonEpoch(h[i], h[j]);
    assert OverlapAt(h, f, i, j);
  }

  /** The index agrees with a history of checks. */
  ghost predicate Agrees(index: map<Miner, map<Uint64, Block>>, h: seq<Checked>) {
    forall miner: Miner, e: Uint64 ::
      Latest(h, miner, e) == if miner in index && e in index[miner] then Some(index[miner][e]) else None
  }

  class ConsensusFaultDetector {
    var minerIndex: map<Miner, map<Uint64, Block>>
    /** What has been sent on the fault channel. */
    var faults: seq<Fault>
    ghost var history: seq<Checked>

    /** After any history of checks the index holds, for each miner and epoch, the most recently
        checked block, and the faults sent are those of the history. */
    ghost predicate Valid()
      reads this
    {
      Identified(history) && Agrees(minerIndex, history) && faults == FaultsOf(history)
    }

    constructor ()
      ensures Valid() && history == []
    {
      minerIndex, faults, history := map[], [], [];
    }

    /** `CheckBlock`; an undefined parent is an error.  The loop over epochs ends only for a height
        below the greatest 64-bit number. */
    method CheckBlock(b: Block, p: TipSet) returns (ok: bool)
      requires Valid()
      requires b.height as int + 1 < TWO_64
      requires p.Defined() ==> Identified(history + [Checked(b, p.Height())])
      modifies this
      ensures Valid() && ok == p.Defined()
      ensures history == if ok then old(history) + [Checked(b, p.Height())] else old(history)
      ensures ok ==>
                var c := Checked(b, p.Height());
                faults == old(faults) + FaultsFrom(old(history), c, Earliest(c))
    {
      hide FaultsFrom, FaultsOf, Latest, Agrees, Identified, Marked;
      if !p.Defined() { return false; }
      ghost var c := Checked(b, p.Height());
      var earliest := Wrap(p.Height() as int + 1);
      var blockByEpoch: map<Uint64, Block> := if b.miner in minerIndex then minerIndex[b.miner] else map[];
      blockByEpoch := MarkEpochs(b, earliest, blockByEpoch, c);
      AgreesAfter(history, minerIndex, c, blockByEpoch);
      FaultsOfSnoc(history, c);
      minerIndex := minerIndex[b.miner := blockByEpoch];
      history := history + [c];
      ok := true;
    }

    /** The loop over the epochs of a block's interval. */
    method MarkEpochs(b: Block, earliest: Uint64, blockByEpoch: map<Uint64, Block>, ghost c: Checked)
      returns (now: map<Uint64, Block>)
      requires Agrees(minerIndex, history) && Identified(history + [c]) && c.block == b && earliest == Earliest(c)
      requires blockByEpoch == if b.miner in minerIndex then minerIndex[b.miner] else map[]
      requires b.height as int + 1 < TWO_64
      modifies this`faults
      ensures Marked(blockByEpoch, now, b, earliest, b.height as int + 1)
      ensures faults == old(faults) + FaultsFrom(history, c, earliest)
    {
      hide FaultsFrom, Latest, Agrees, Identified;
      now := blockByEpoch;
      var e: nat := earliest;
      while e <= b.height
        invariant earliest <= e && (e <= b.height as int + 1 || e == earliest)
        invariant Marked(blockByEpoch, now, b, earliest, e)
        invariant faults + FaultsFrom(history, c, e) == old(faults) + FaultsFrom(history, c, earliest)
        decreases b.height as int + 1 - e
      {
        EpochStep(history, minerIndex, blockByEpoch, c, e);
        if e in now {
          var collision := now[e];
          if collision.cid != b.cid {
            faults := faults + [Fault(b, collision)];
            now := now[e := b];
          } else {
            SameBlock(history, c, e);
          }
        } else {
          now := now[e := b];
        }
        e := e + 1;
      }
      NoMoreFaults(history, c, e);
    }
  }

  lemma NoMoreFaults(h: seq<Checked>, c: Checked, e: nat)
    requires e > c.block.height
    ensures FaultsFrom(h, c, e) == []
  {
  }

  lemma FaultsOfSnoc(h: seq<Checked>, c: Checked)
    ensures FaultsOf(h + [c]) == FaultsOf(h) + FaultsFrom(h, c, Earliest(c))
  {
    assert (h + [c])[..|h|] == h;
  }

  /** Epochs from `earliest` up to `e` hold block `b`; the others hold what they did. */
  ghost predicate Marked(before: map<Uint64, Block>, now: map<Uint64, Block>, b: Block, earliest: Uint64, e: nat) {
    forall k: Uint64 ::
      if earliest <= k < e then k in now && now[k] == b
      else (k in now <==> k in before) && (k in now ==> now[k] == before[k])
  }

  lemma EpochStep(h: seq<Checked>, index: map<Miner, map<Uint64, Block>>, before: map<Uint64, Block>, c: Checked,
                  e: Uint64)
    requires Agrees(index, h) && before == (if c.block.miner in index then index[c.block.miner] else map[])
    requires e <= c.block.height
    ensures FaultsFrom(h, c, e) ==
              (if e in before && before[e].cid != c.block.cid then [Fault(c.block, before[e])] else []) +
                  FaultsFrom(h, c, e + 1)
    ensures Latest(h, c.block.miner, e) == if e in before then Some(before[e]) else None
  {
    hide Latest;
  }

  lemma SameBlock(h: seq<Checked>, c: Checked, e: Uint64)
    requires Identified(h + [c])
    requires Latest(h, c.block.miner, e).Some? && Latest(h, c.block.miner, e).value.cid == c.block.cid
    ensures Latest(h, c.block.miner, e).value == c.block
  {
    LatestIsChecked(h, c.block.miner, e);
    var i: nat :| IsLastToCover(h, c.block.miner, e, i) && h[i].block == Latest(h, c.block.miner, e).value;
    assert (h + [c])[i] == h[i] && (h + [c])[|h|] == c;
  }

  lemma AgreesAfter(h: seq<Checked>, index: map<Miner, map<Uint64, Block>>, c: Checked, now: map<Uint64, Block>)
    requires Agrees(index, h)
    requires Marked(if c.block.miner in index then index[c.block.miner] else map[], now, c.block, Earliest(c),
                    c.block.height as int + 1)
    ensures Agrees(index[c.block.miner := now], h + [c])
  {
    hide Latest;
    forall miner: Miner, k: Uint64
      ensures var i := index[c.block.miner := now];
              Latest(h + [c], miner, k) == if miner in i && k in i[miner] then Some(i[miner][k]) else None
    {
      LatestSnoc(h, c, miner, k);
    }
  }

  lemma LatestSnoc(h: seq<Checked>, c: Checked, miner: Miner, e: nat)
    ensures Latest(h + [c], miner, e) == if Covers(c, miner, e) then Some(c.block) else Latest(h, miner, e)
  {
    assert (h + [c])[..|h|] == h;
  }
}
