/** The messages that blocks hold, as the message store serves them. */
module MinedMessages {
  import opened Primitives
  import opened TipSetKeys
  import opened TipSets
  import opened Messages

  /** The messages of a block.  Those under an aggregate BLS signature have none of their own. */
  datatype Collection = Collection(secp: seq<SignedMessage>, bls: seq<Message>)

  /** Collections by the CID the block header gives. */
  type Loader = map<Cid, Collection>

  function BlocksOf(tips: seq<TipSet>): seq<Block> {
    if tips == [] then [] else tips[0].blocks + BlocksOf(tips[1..])
  }

  /** The secp messages, which are all that the callers of the store look at, up to the first
      collection that is missing, and whether none is. */
  function OfBlocks(l: Loader, blocks: seq<Block>): (seq<SignedMessage>, bool) {
    if blocks == [] then ([], true)
    else if blocks[0].messages !in l then ([], false)
    else
      var (rest, ok) := OfBlocks(l, blocks[1..]);
      (l[blocks[0].messages].secp + rest, ok)
  }

  function OfTips(l: Loader, tips: seq<TipSet>): (seq<SignedMessage>, bool) {
    OfBlocks(l, BlocksOf(tips))
  }

  function After(msgs: seq<SignedMessage>, rest: (seq<SignedMessage>, bool)): (seq<SignedMessage>, bool) {
    (msgs + rest.0, rest.1)
  }

  lemma OneBlock(l: Loader, msgs: seq<SignedMessage>, blocks: seq<Block>)
    requires blocks != []
    ensures blocks[0].messages in l ==>
              After(msgs, OfBlocks(l, blocks)) == After(msgs + l[blocks[0].messages].secp, OfBlocks(l, blocks[1..]))
    ensures blocks[0].messages !in l ==> After(msgs, OfBlocks(l, blocks)) == (msgs, false)
  {
    if blocks[0].messages in l {
      Regroup(msgs, l[blocks[0].messages].secp, OfBlocks(l, blocks[1..]).0);
    } else {
      assert msgs + [] == msgs;
    }
  }

  lemma Regroup(a: seq<SignedMessage>, b: seq<SignedMessage>, c: seq<SignedMessage>)
    ensures a + (b + c) == a + b + c
  {
  }

  /** The nested loops over tipsets and blocks that load messages. */
  method LoadMessages(l: Loader, tips: seq<TipSet>) returns (msgs: seq<SignedMessage>, ok: bool)
    ensures (msgs, ok) == OfTips(l, tips)
  {
    hide OfBlocks;
    msgs, ok := [], true;
    assert [] + OfTips(l, tips).0 == OfTips(l, tips).0;
    for t := 0 to |tips|
      invariant After(msgs, OfTips(l, tips[t..])) == OfTips(l, tips)
    {
      ghost var rest := BlocksOf(tips[t + 1..]);
      assert tips[t..][1..] == tips[t + 1..];
      var blocks := tips[t].blocks;
      assert blocks[0..] == blocks;
      for b := 0 to |blocks|
        invariant After(msgs, OfBlocks(l, blocks[b..] + rest)) == OfTips(l, tips)
      {
        OneBlock(l, msgs, blocks[b..] + rest);
        assert (blocks[b..] + rest)[1..] == blocks[b + 1..] + rest;
        if blocks[b].messages !in l { return msgs, false; }
        var collection := l[blocks[b].messages];
        msgs := msgs + collection.secp;
      }
      assert blocks[|blocks|..] + rest == rest;
    }
    NothingLeft(l, msgs);
  }

  lemma NothingLeft(l: Loader, msgs: seq<SignedMessage>)
    ensures After(msgs, OfTips(l, [])) == (msgs, true)
  {
    assert msgs + [] == msgs;
  }

  lemma {:induction false} OfBlocksConcat(l: Loader, x: seq<Block>, y: seq<Block>)
    requires OfBlocks(l, x).1
    ensures OfBlocks(l, x + y) == After(OfBlocks(l, x).0, OfBlocks(l, y))
  {
    if x == [] {
      assert x + y == y;
      AfterNothing(OfBlocks(l, y));
    } else {
      OfBlocksConcat(l, x[1..], y);
      assert (x + y)[1..] == x[1..] + y;
      AfterTwice(l[x[0].messages].secp, OfBlocks(l, x[1..]).0, OfBlocks(l, y));
    }
  }

  lemma {:induction false} BlocksOfConcat(a: seq<TipSet>, b: seq<TipSet>)
    ensures BlocksOf(a + b) == BlocksOf(a) + BlocksOf(b)
  {
    hide BlocksOf;
    if a == [] {
      assert a + b == b;
      NoBlocks();
    } else {
      BlocksOfConcat(a[1..], b);
      assert (a + b)[1..] == a[1..] + b;
      BlocksOfFirst(a);
      BlocksOfFirst(a + b);
      assert a[0].blocks + (BlocksOf(a[1..]) + BlocksOf(b)) == a[0].blocks + BlocksOf(a[1..]) + BlocksOf(b);
    }
  }

  lemma NoBlocks()
    ensures BlocksOf([]) == []
  {
  }

  lemma BlocksOfFirst(tips: seq<TipSet>)
    requires tips != []
    ensures BlocksOf(tips) == tips[0].blocks + BlocksOf(tips[1..])
  {
  }

  /** Messages are loaded tipset by tipset and, within one, block by block, in the order given. */
  lemma LoadedInOrder(l: Loader, tips: seq<TipSet>, ts: TipSet, i: nat)
    requires i < |ts.blocks| && ts.blocks[i].messages in l
    requires OfTips(l, tips).1 && OfBlocks(l, ts.blocks[..i]).1
    ensures var before := OfTips(l, tips).0 + OfBlocks(l, ts.blocks[..i]).0 + l[ts.blocks[i].messages].secp;
            OfTips(l, tips + [ts]) == After(before, OfBlocks(l, ts.blocks[i + 1..]))
  {
    hide OfBlocks;
    var x, y, z := BlocksOf(tips), ts.blocks[..i], ts.blocks[i..];
    BlocksOfConcat(tips, [ts]);
    assert [ts][1..] == [] && BlocksOf([ts]) == ts.blocks == y + z;
    OfBlocksConcat(l, x, y + z);
    OfBlocksConcat(l, y, z);
    OneBlock(l, [], z);
    assert z[1..] == ts.blocks[i + 1..];
    AfterTwice(OfBlocks(l, x).0, OfBlocks(l, y).0, OfBlocks(l, z));
    AfterNothing(OfBlocks(l, z));
    AfterTwice(OfBlocks(l, x).0 + OfBlocks(l, y).0, l[ts.blocks[i].messages].secp, OfBlocks(l, z[1..]));
    assert [] + l[ts.blocks[i].messages].secp == l[ts.blocks[i].messages].secp;
  }

  lemma AfterTwice(a: seq<SignedMessage>, b: seq<SignedMessage>, rest: (seq<SignedMessage>, bool))
    ensures After(a, After(b, rest)) == After(a + b, rest)
  {
    Regroup(a, b, rest.0);
  }

  lemma AfterNothing(rest: (seq<SignedMessage>, bool))
    ensures After([], rest) == rest
  {
    assert [] + rest.0 == rest.0;
  }

  // ----- what is mined, in either list -----

  ghost predicate MinedSecp(l: Loader, m: SignedMessage, tips: seq<TipSet>) {
    exists i, b :: 0 <= i < |tips| && b in tips[i].blocks && b.messages in l && m in l[b.messages].secp
  }

  ghost predicate MinedBls(l: Loader, m: SignedMessage, tips: seq<TipSet>) {
    exists i, b :: 0 <= i < |tips| && b in tips[i].blocks && b.messages in l && m.message in l[b.messages].bls
  }

  ghost predicate MinedIn(l: Loader, m: SignedMessage, tips: seq<TipSet>) {
    MinedSecp(l, m, tips) || MinedBls(l, m, tips)
  }

  /** All messages of blocks in the order they are processed in: BLS messages first in each. */
  function AllOfBlocks(l: Loader, blocks: seq<Block>): seq<Message> {
    if blocks == [] || blocks[0].messages !in l then []
    else l[blocks[0].messages].bls + Unwrap(l[blocks[0].messages].secp) + AllOfBlocks(l, blocks[1..])
  }

  function AllOfTips(l: Loader, tips: seq<TipSet>): seq<Message> {
    AllOfBlocks(l, BlocksOf(tips))
  }

  lemma {:induction false} OfBlocksMembers(l: Loader, blocks: seq<Block>, m: SignedMessage)
    requires OfBlocks(l, blocks).1
    ensures m in OfBlocks(l, blocks).0 <==> exists b :: b in blocks && b.messages in l && m in l[b.messages].secp
  {
    if blocks != [] {
      OfBlocksMembers(l, blocks[1..], m);
      assert blocks == [blocks[0]] + blocks[1..];
    }
  }

  lemma {:induction false} BlocksOfMembers(tips: seq<TipSet>, b: Block)
    ensures b in BlocksOf(tips) <==> exists i :: 0 <= i < |tips| && b in tips[i].blocks
  {
    if tips != [] {
      BlocksOfMembers(tips[1..], b);
      if i :| 0 <= i < |tips| && b in tips[i].blocks { if i > 0 { assert tips[1..][i - 1] == tips[i]; } }
      if i :| 0 <= i < |tips[1..]| && b in tips[1..][i].blocks { assert tips[i + 1] == tips[1..][i]; }
    }
  }

  /** What is loaded of tipsets is what is mined in their secp lists. */
  lemma OfTipsMembers(l: Loader, tips: seq<TipSet>, m: SignedMessage)
    requires OfTips(l, tips).1
    ensures m in OfTips(l, tips).0 <==> MinedSecp(l, m, tips)
  {
    OfBlocksMembers(l, BlocksOf(tips), m);
    if b :| b in BlocksOf(tips) && b.messages in l && m in l[b.messages].secp {
      BlocksOfMembers(tips, b);
    }
    if i, b :| 0 <= i < |tips| && b in tips[i].blocks && b.messages in l && m in l[b.messages].secp {
      BlocksOfMembers(tips, b);
    }
  }

  lemma MinedInJoined(l: Loader, m: SignedMessage, a: seq<TipSet>, b: seq<TipSet>)
    ensures MinedSecp(l, m, a + b) <==> MinedSecp(l, m, a) || MinedSecp(l, m, b)
    ensures MinedBls(l, m, a + b) <==> MinedBls(l, m, a) || MinedBls(l, m, b)
  {
    var c := a + b;
    forall i | 0 <= i < |a| ensures c[i] == a[i] {}
    forall i | 0 <= i < |b| ensures c[|a| + i] == b[i] {}
    MinedInMore(l, m, a, c, 0);
    MinedInMore(l, m, b, c, |a|);
  }

  lemma MinedInMore(l: Loader, m: SignedMessage, a: seq<TipSet>, c: seq<TipSet>, k: nat)
    requires k + |a| <= |c| && forall i | 0 <= i < |a| :: c[k + i] == a[i]
    ensures MinedSecp(l, m, a) ==> MinedSecp(l, m, c)
    ensures MinedBls(l, m, a) ==> MinedBls(l, m, c)
  {
    if i, b :| 0 <= i < |a| && b in a[i].blocks && b.messages in l && m in l[b.messages].secp {
      assert b in c[k + i].blocks;
    }
    if i, b :| 0 <= i < |a| && b in a[i].blocks && b.messages in l && m.message in l[b.messages].bls {
      assert b in c[k + i].blocks;
    }
  }

  /** The height of the new chain, known from what changed alone; none for an undefined tipset. */
  function ReorgHeight(oldTips: seq<TipSet>, newTips: seq<TipSet>): Option<Uint64> {
    if |newTips| > 0 then (if newTips[0].Defined() then Some(newTips[0].Height()) else None)
    else if |oldTips| > 0 then (if oldTips[0].Defined() then Some(oldTips[0].Height()) else None)
    else Some(0)
  }
}
