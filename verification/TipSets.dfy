/** Tipsets: blocks of one height with the same parents, in the order of their tickets. */
module TipSets {
  import opened Primitives
  import opened TipSetKeys
  import Lexicographic
  import GoSort

  datatype Block = Block(
    cid: Cid,
    miner: seq<Byte>,
    ticket: seq<Byte>,
    parents: TipSetKey,
    parentWeight: Uint64,
    height: Uint64,
    messages: Cid)

  datatype TipSet = TipSet(blocks: seq<Block>, key: TipSetKey) {
    predicate Defined() {
      |blocks| > 0
    }

    function Height(): Uint64
      requires Defined()
    {
      blocks[0].height
    }

    function Parents(): TipSetKey
      requires Defined()
    {
      blocks[0].parents
    }

    function ParentWeight(): Uint64
      requires Defined()
    {
      blocks[0].parentWeight
    }

    function MinTicket(): seq<Byte>
      requires Defined()
    {
      blocks[0].ticket
    }
  }

  const UNDEF_TIPSET: TipSet := TipSet([], [])

  /** By ticket, and by CID where tickets are the same. */
  predicate BlockLess(a: Block, b: Block) {
    Lexicographic.Less(a.ticket, b.ticket) || (a.ticket == b.ticket && CidLess(a.cid, b.cid))
  }

  lemma BlockLessTrichotomy(a: Block, b: Block)
    ensures BlockLess(a, b) ==> !BlockLess(b, a)
    ensures BlockLess(a, b) || (a.ticket == b.ticket && a.cid == b.cid) || BlockLess(b, a)
  {
    Lexicographic.Total(a.ticket, b.ticket);
    Lexicographic.Total(a.cid, b.cid);
    Lexicographic.Irreflexive(a.ticket);
    if Lexicographic.Less(a.ticket, b.ticket) { Lexicographic.Asymmetric(a.ticket, b.ticket); }
    if CidLess(a.cid, b.cid) { Lexicographic.Asymmetric(a.cid, b.cid); }
  }

  lemma BlockLessTransitive(a: Block, b: Block, c: Block)
    requires BlockLess(a, b) && BlockLess(b, c)
    ensures BlockLess(a, c)
  {
    Lexicographic.Irreflexive(a.ticket);
    if a.ticket == b.ticket == c.ticket {
      Lexicographic.Transitive(a.cid, b.cid, c.cid);
    } else if a.ticket != b.ticket && b.ticket != c.ticket {
      Lexicographic.Transitive(a.ticket, b.ticket, c.ticket);
    }
  }

  lemma BlockOrder()
    ensures GoSort.StrictWeakOrder(BlockLess)
  {
    forall a: Block, b: Block ensures BlockLess(a, b) ==> !BlockLess(b, a) {
      BlockLessTrichotomy(a, b);
    }
    forall a: Block, b: Block, c: Block ensures BlockLess(a, c) ==> BlockLess(a, b) || BlockLess(b, c) {
      BlockLessTrichotomy(a, b);
      if BlockLess(a, c) && BlockLess(b, a) { BlockLessTransitive(b, a, c); }
    }
  }

  function Cids(blocks: seq<Block>): (r: seq<Cid>)
    ensures |r| == |blocks|
    ensures forall i | 0 <= i < |r| :: r[i] == blocks[i].cid
  {
    if blocks == [] then [] else Cids(blocks[..|blocks| - 1]) + [blocks[|blocks| - 1].cid]
  }

  /** Blocks that may form a tipset. */
  predicate Compatible(blocks: seq<Block>) {
    && blocks != []
    && (forall i | 0 <= i < |blocks| ::
          && blocks[i].height == blocks[0].height
          && blocks[i].parents == blocks[0].parents
          && blocks[i].parentWeight == blocks[0].parentWeight)
    && AllDistinct(Cids(blocks))
  }

  /** The tipset of some blocks: they are in ticket order, and the key is their set of CIDs. */
  ghost predicate IsTipSetOf(ts: TipSet, blocks: seq<Block>) {
    && multiset(ts.blocks) == multiset(blocks)
    && GoSort.SortedBy(ts.blocks, BlockLess)
    && forall c :: c in ts.key <==> c in Cids(blocks)
  }

  /** `NewTipSet`: it succeeds exactly on compatible blocks. */
  method NewTipSet(blocks: seq<Block>) returns (r: Option<TipSet>)
    ensures r.Some? <==> Compatible(blocks)
    ensures r.Some? ==> IsTipSetOf(r.value, blocks)
  {
    if |blocks| == 0 { return None; }
    var first := blocks[0];
    var cids: seq<Cid> := [];
    for i := 0 to |blocks|
      invariant forall j | 0 <= j < i ::
                  && blocks[j].height == first.height
                  && blocks[j].parents == first.parents
                  && blocks[j].parentWeight == first.parentWeight
      invariant |cids| == i && forall j | 0 <= j < i :: cids[j] == blocks[j].cid
    {
      var blk := blocks[i];
      if i > 0 {
        if blk.height != first.height { return None; }
        if blk.parents != first.parents { return None; }
        if blk.parentWeight != first.parentWeight { return None; }
      }
      cids := cids + [blk.cid];
    }
    assert cids == Cids(blocks);
    BlockOrder();
    var sorted := GoSort.SortSlice(blocks, BlockLess);
    var key := NewTipSetKeyFromUnique(cids);
    if key.None? { return None; }
    r := Some(TipSet(sorted, key.value));
  }

  /** The same blocks in any order give the same tipset: the same order of blocks and the same
      key. */
  lemma TipSetIsCanonical(a: seq<Block>, b: seq<Block>, s: TipSet, t: TipSet)
    requires Compatible(a) && multiset(a) == multiset(b)
    requires IsTipSetOf(s, a) && IsTipSetOf(t, b)
    ensures s == t
  {
    GoSort.SameElements(s.blocks, a);
    forall x, y | x in s.blocks && y in s.blocks && x != y ensures BlockLess(x, y) || BlockLess(y, x) {
      DifferentCids(a, x, y);
      BlockLessTrichotomy(x, y);
    }
    GoSort.SortedPermutationIsUnique(s.blocks, t.blocks, BlockLess);
    GoSort.SameElements(a, b);
    forall c ensures c in s.key <==> c in t.key {
      CidOfBlock(a, c);
      CidOfBlock(b, c);
    }
    EqualsIsSetEquality(s.key, t.key);
  }

  lemma CidOfBlock(blocks: seq<Block>, c: Cid)
    ensures c in Cids(blocks) <==> exists b :: b in blocks && b.cid == c
  {
    if c in Cids(blocks) {
      var i :| 0 <= i < |blocks| && Cids(blocks)[i] == c;
      assert blocks[i] in blocks && blocks[i].cid == c;
    }
    if exists b :: b in blocks && b.cid == c {
      var b :| b in blocks && b.cid == c;
      var i :| 0 <= i < |blocks| && blocks[i] == b;
      assert Cids(blocks)[i] == c;
    }
  }

  lemma DifferentCids(blocks: seq<Block>, x: Block, y: Block)
    requires AllDistinct(Cids(blocks)) && x in blocks && y in blocks && x != y
    ensures x.cid != y.cid
  {
    var i :| 0 <= i < |blocks| && blocks[i] == x;
    var j :| 0 <= j < |blocks| && blocks[j] == y;
    assert Cids(blocks)[i] == x.cid && Cids(blocks)[j] == y.cid;
  }

  /** All blocks of a tipset have the height, the parents and the parent weight that it has. */
  lemma BlocksAgree(ts: TipSet, blocks: seq<Block>, b: Block)
    requires Compatible(blocks) && IsTipSetOf(ts, blocks) && b in blocks
    ensures ts.Defined() && b.height == ts.Height() && b.parents == ts.Parents() && b.parentWeight == ts.ParentWeight()
  {
    GoSort.SameElements(ts.blocks, blocks);
    assert ts.blocks[0] in ts.blocks;
  }

  lemma {:induction false} OnceEach(blocks: seq<Block>, x: Block)
    requires AllDistinct(Cids(blocks))
    ensures multiset(blocks)[x] <= 1
  {
    if blocks != [] {
      var init, last := blocks[..|blocks| - 1], blocks[|blocks| - 1];
      assert blocks == init + [last];
      OnceEach(init, x);
    }
  }

  /** The blocks of a tipset are in the byte order of their tickets and, for one ticket, of their CIDs. */
  lemma BlocksAscend(ts: TipSet, blocks: seq<Block>, i: nat, j: nat)
    requires Compatible(blocks) && IsTipSetOf(ts, blocks) && i < j < |ts.blocks|
    ensures var a, b := ts.blocks[i], ts.blocks[j];
            Lexicographic.Precedes(a.ticket, b.ticket) || (a.ticket == b.ticket && Lexicographic.Precedes(a.cid, b.cid))
  {
    var a, b := ts.blocks[i], ts.blocks[j];
    assert !BlockLess(b, a);
    GoSort.SameElements(ts.blocks, blocks);
    OnceEach(blocks, a);
    if a == b { GoSort.TwiceCounts(ts.blocks, i, j); }
    DifferentCids(blocks, a, b);
    BlockLessTrichotomy(a, b);
    Lexicographic.LessIff(a.ticket, b.ticket);
    Lexicographic.LessIff(a.cid, b.cid);
  }

  /** The first ticket is the smallest of all. */
  lemma MinTicketIsMinimal(ts: TipSet, blocks: seq<Block>, b: Block)
    requires blocks != [] && IsTipSetOf(ts, blocks) && b in blocks
    ensures ts.Defined() && (exists m :: m in blocks && m.ticket == ts.MinTicket())
    ensures !Lexicographic.Less(b.ticket, ts.MinTicket())
  {
    GoSort.SameElements(ts.blocks, blocks);
    assert ts.blocks[0] in ts.blocks;
    var i :| 0 <= i < |ts.blocks| && ts.blocks[i] == b;
    if i == 0 {
      Lexicographic.Irreflexive(b.ticket);
    } else {
      assert !BlockLess(ts.blocks[i], ts.blocks[0]);
    }
  }
}
