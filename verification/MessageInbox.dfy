/** Keeping the message pool in step with the chain. */
module MessageInbox {
  import opened Primitives
  import opened Messages
  import opened TipSets
  import opened Ancestry
  import opened MinedMessages
  import opened MessagePool

  /** The height of the tipset `n` back from the head, or of the last one there is. */
  function HeightBack(c: seq<TipSet>, n: nat): Uint64
    requires c != [] && AllDefined(c)
  {
    if n < |c| then c[n].Height() else c[|c| - 1].Height()
  }

  /** Walking back over `maxAge` + 1 tipsets comes to one whose parent is missing. */
  ghost predicate EndsEarly(p: Provider, head: TipSet, maxAge: nat)
    requires WellFormed(p) && Holds(p, head)
  {
    var c := Chain(p, head);
    |c| <= maxAge + 1 && c[|c| - 1].Defined() && c[|c| - 1].Parents() != []
  }

  lemma LinkedNeverEndsEarly(p: Provider, head: TipSet, maxAge: nat)
    requires WellFormed(p) && Linked(p) && Holds(p, head)
    ensures !EndsEarly(p, head, maxAge)
  {
    ChainGoesOn(p, p, head);
  }

  /** The walk of `timeoutMessages`: back over `maxAge` + 1 tipsets, as far as there are any. */
  method MinimumHeight(p: Provider, head: TipSet, maxAge: nat) returns (minimumHeight: Uint64, failed: bool)
    requires WellFormed(p) && Holds(p, head)
    ensures AllDefined(Chain(p, head))
    ensures failed <==> EndsEarly(p, head, maxAge)
    ensures !failed ==> minimumHeight == HeightBack(Chain(p, head), maxAge)
  {
    hide Chain, WellFormed, Linked;
    ghost var c := Chain(p, head);
    ChainFacts(p, head);
    HeldIsDefined(p, head);
    var itr := new TipsetIterator(p, head);
    minimumHeight, failed := 0, false;
    var i := 0;
    while !failed && i <= maxAge && itr.value.Defined()
      invariant itr.Valid() && 0 <= i <= |c| && i <= maxAge + 1
      invariant itr.Remaining() == c[i..] && (failed ==> i > 0)
      invariant i > 0 ==> minimumHeight == c[i - 1].Height()
      invariant i > 0 ==> (failed <==> i == |c| && c[i - 1].Parents() != [])
      decreases |c| - i
    {
      assert itr.value == c[i];
      minimumHeight := itr.value.Height();
      failed := itr.Next();
      i := i + 1;
    }
  }

  lemma HeldIsDefined(p: Provider, ts: TipSet)
    requires WellFormed(p) && Holds(p, ts)
    ensures ts.Defined()
  {
  }

  /** `timeoutMessages`. */
  method TimeoutMessages(pool: Pool, p: Provider, head: TipSet, maxAge: nat) returns (ok: bool)
    requires pool.Valid() && WellFormed(p) && Holds(p, head)
    modifies pool
    ensures pool.Valid() && AllDefined(Chain(p, head))
    ensures ok <==> !EndsEarly(p, head, maxAge)
    ensures pool.pending ==
              if ok then NotBefore(old(pool.pending), HeightBack(Chain(p, head), maxAge)) else old(pool.pending)
  {
    hide Chain, WellFormed, EndsEarly, HeightBack;
    var minimumHeight, failed := MinimumHeight(p, head, maxAge);
    if failed { return false; }
    var stale := pool.PendingBefore(minimumHeight);
    pool.RemoveAll(stale);
    ok := true;
  }

  /** The pool once restored messages are added, mined ones removed and old ones timed out.  Both are
      what was loaded: the secp lists of blocks. */
  function Settled(p: Pending, maxSize: nat, valid: Validator, restored: seq<SignedMessage>, mined: seq<SignedMessage>,
                   height: Uint64, minimumHeight: Uint64): Pending {
    NotBefore(Without(AddAll(p, maxSize, valid, restored, height), mined), minimumHeight)
  }

  /** What handling a change of chain makes of the pool: what was loaded of the old chain is added
      even if something else is missing, and nothing is removed then. */
  ghost predicate IsHandled(p: Pending, after: Pending, ok: bool, maxSize: nat, valid: Validator, l: Loader,
                            chain: Provider, maxAge: nat, oldTips: seq<TipSet>, newTips: seq<TipSet>)
    requires WellFormed(chain) && (|newTips| > 0 && newTips[0].Defined() ==> Holds(chain, newTips[0]))
  {
    if ReorgHeight(oldTips, newTips).None? then !ok && after == p
    else
      var height := ReorgHeight(oldTips, newTips).value;
      var added := AddAll(p, maxSize, valid, OfTips(l, oldTips).0, height);
      var mined := OfTips(l, newTips).0;
      if !OfTips(l, oldTips).1 || !OfTips(l, newTips).1 then !ok && after == added
      else if |newTips| == 0 then ok && after == Without(added, mined)
      else if EndsEarly(chain, newTips[0], maxAge) then !ok && after == Without(added, mined)
      else
        && ok && AllDefined(Chain(chain, newTips[0]))
        && after == Settled(p, maxSize, valid, OfTips(l, oldTips).0, mined, height,
                            HeightBack(Chain(chain, newTips[0]), maxAge))
  }

  method AddMessages(pool: Pool, valid: Validator, msgs: seq<SignedMessage>, height: Uint64)
    requires pool.Valid()
    modifies pool
    ensures pool.Valid() && pool.pending == AddAll(old(pool.pending), pool.maxPoolSize, valid, msgs, height)
  {
    for i := 0 to |msgs|
      invariant pool.Valid()
      invariant AddAll(pool.pending, pool.maxPoolSize, valid, msgs[i..], height)
             == AddAll(old(pool.pending), pool.maxPoolSize, valid, msgs, height)
    {
      assert msgs[i..][1..] == msgs[i + 1..];
      var _ := pool.Add(valid, msgs[i], height);
    }
  }

  /** `Inbox`; `valid` is what the pool's validator says of messages at the time of the call. */
  class Inbox {
    const pool: Pool
    const maxAgeTipsets: nat

    constructor (p: Pool, maxAge: nat)
      ensures pool == p && maxAgeTipsets == maxAge
    {
      pool, maxAgeTipsets := p, maxAge;
    }

    method HandleNewHead(valid: Validator, l: Loader, chain: Provider, oldTips: seq<TipSet>, newTips: seq<TipSet>)
      returns (ok: bool)
      requires pool.Valid() && WellFormed(chain)
      requires |newTips| > 0 && newTips[0].Defined() ==> Holds(chain, newTips[0])
      modifies pool
      ensures pool.Valid()
      ensures IsHandled(old(pool.pending), pool.pending, ok, pool.maxPoolSize, valid, l, chain, maxAgeTipsets,
                        oldTips, newTips)
    {
      hide OfTips, AddAll, PoolOk, EndsEarly, WellFormed, Chain, HeightBack, Without, NotBefore;
      var chainHeight := ReorgHeight(oldTips, newTips);
      if chainHeight.None? { return false; }
      var restored, restoredAll := LoadMessages(l, oldTips);
      AddMessages(pool, valid, restored, chainHeight.value);
      if !restoredAll { return false; }
      var mined, minedAll := LoadMessages(l, newTips);
      if !minedAll { return false; }
      pool.RemoveAll(mined);
      if |newTips| > 0 {
        ok := TimeoutMessages(pool, chain, newTips[0], maxAgeTipsets);
      } else {
        ok := true;
      }
    }
  }

  /** The pool keeps what is not in the mined list and not too old, as it was; it gains only valid messages of
      the abandoned chain, tagged with the new height; and it gains all of those that are not mined
      again, except for ones a pool may refuse. */
  lemma SettledFacts(p: Pending, maxSize: nat, valid: Validator, restored: seq<SignedMessage>,
                     mined: seq<SignedMessage>, height: Uint64, minimumHeight: Uint64)
    requires PoolOk(p, maxSize) && minimumHeight <= height
    ensures var q := Settled(p, maxSize, valid, restored, mined, height, minimumHeight);
            && PoolOk(q, maxSize)
            && (forall m | m in q :: m !in mined && q[m] >= minimumHeight)
            && (forall m | m in p && m !in mined && p[m] >= minimumHeight :: m in q && q[m] == p[m])
            && (forall m | m in q && m !in p :: m in restored && valid(m) && q[m] == height)
            && (forall m | m in restored && m !in mined && m !in p ::
                  m in q || Refusable(AddAll(p, maxSize, valid, restored, height), maxSize, valid, m))
  {
    hide PoolOk, AddAll, Refusable;
    var added := AddAll(p, maxSize, valid, restored, height);
    AddAllFacts(p, maxSize, valid, restored, height);
    RestrictKeepsPool(Settled(p, maxSize, valid, restored, mined, height, minimumHeight), added, maxSize);
    forall m | m in restored ensures m in added || Refusable(added, maxSize, valid, m) {
      AllAddedOrRefused(p, maxSize, valid, restored, height, m);
    }
  }

  /** The height restored messages are tagged with is not below the height timed out. */
  lemma HeightBackIsBelow(c: seq<TipSet>, n: nat)
    requires c != [] && AllDefined(c) && Descending(c)
    ensures HeightBack(c, n) <= c[0].Height()
  {
  }

  /** The timeout is meant to be counted from the head.  Counted from the lowest of the `added`
      tipsets at its front instead, it is never a higher one, and it is the same if and only if one
      tipset was added or the chain is no longer than the age allowed. */
  lemma TimeoutFromLowestIff(c: seq<TipSet>, added: nat, maxAge: nat)
    requires AllDefined(c) && Descending(c) && 0 < added <= |c|
    ensures AllDefined(c[added - 1..])
    ensures HeightBack(c[added - 1..], maxAge) <= HeightBack(c, maxAge)
    ensures HeightBack(c[added - 1..], maxAge) == HeightBack(c, maxAge) <==> added == 1 || maxAge >= |c| - 1
  {
    var lower := c[added - 1..];
    assert lower[|lower| - 1] == c[|c| - 1];
    if maxAge < |lower| { assert lower[maxAge] == c[added - 1 + maxAge]; }
  }
}
