/** Following the head of the chain. */
module HeadHandling {
  import opened Primitives
  import opened StateTree
  import opened Messages
  import opened TipSetKeys
  import opened TipSets
  import opened Ancestry
  import opened MinedMessages
  import MessagePool
  import MessageInbox
  import MessageSemantics
  import Ingestion
  import OutboundQueue
  import QueuePolicy

  // ----- changes of chain, one after another -----

  /** A provider that knows more has the same chains below tipsets whose parents were all known. */
  lemma {:induction false} ChainIsKept(p: Provider, q: Provider, ts: TipSet)
    requires WellFormed(p) && WellFormed(q) && Linked(p) && Holds(p, ts)
    requires forall k | k in p :: k in q && q[k] == p[k]
    ensures Holds(q, ts) && Chain(q, ts) == Chain(p, ts)
    decreases ts.Height()
  {
    if ts.Parents() != [] { ChainIsKept(p, q, p[ts.Parents()]); }
  }

  datatype Step = Step(provider: Provider, head: TipSet, delta: Delta)

  /** Each step sees at least the tipsets the one before it saw, and its delta leads to its head. */
  ghost predicate Follows(p: Provider, head: TipSet, steps: seq<Step>)
    decreases steps
  {
    && WellFormed(p) && Linked(p) && Holds(p, head)
    && (steps != [] ==>
          var s := steps[0];
          && WellFormed(s.provider) && Linked(s.provider) && Holds(s.provider, s.head)
          && (forall k | k in p :: k in s.provider && s.provider[k] == p[k])
          && Holds(s.provider, head) && IsDelta(s.provider, head, s.head, s.delta)
          && Follows(s.provider, s.head, steps[1..]))
  }

  /** The chain as told by deltas alone: drop the old tipsets, put the new ones in front. */
  function View(view: seq<TipSet>, steps: seq<Step>): seq<TipSet>
    decreases steps
  {
    if steps == [] then view
    else
      var d := steps[0].delta;
      View(d.newTips + (if |d.oldTips| <= |view| then view[|d.oldTips|..] else []), steps[1..])
  }

  function Last(p: Provider, head: TipSet, steps: seq<Step>): (Provider, TipSet) {
    if steps == [] then (p, head) else (steps[|steps| - 1].provider, steps[|steps| - 1].head)
  }

  /** However the head moves, one who only sees the deltas knows the chain of the last head. */
  lemma {:induction false} ViewFollowsHead(p: Provider, head: TipSet, steps: seq<Step>)
    requires Follows(p, head, steps)
    ensures var (q, last) := Last(p, head, steps);
            WellFormed(q) && Holds(q, last) && View(Chain(p, head), steps) == Chain(q, last)
    decreases steps
  {
    if steps != [] {
      var s := steps[0];
      ChainIsKept(p, s.provider, head);
      ViewFollowsHead(s.provider, s.head, steps[1..]);
    }
  }

  // ----- the pool over a run -----

  /** The new tipset that comes first when they are reversed. */
  ghost predicate LowestIsHeld(provider: Provider, d: Delta) {
    var r := QueuePolicy.Reversed(d.newTips);
    |r| > 0 ==> r[0].Defined() && Holds(provider, r[0])
  }

  lemma DeltaFacts(provider: Provider, oldHead: TipSet, newHead: TipSet, d: Delta)
    requires WellFormed(provider) && Holds(provider, oldHead) && Holds(provider, newHead)
    requires IsDelta(provider, oldHead, newHead, d)
    ensures LowestIsHeld(provider, d)
    ensures AllDefined(d.oldTips) && AllDefined(d.newTips)
    ensures ReorgHeight(d.oldTips, d.newTips).Some?
    ensures ReorgHeight(d.oldTips, QueuePolicy.Reversed(d.newTips)).Some?
  {
    hide Chain;
    ChainFacts(provider, oldHead);
    ChainFacts(provider, newHead);
    var newChain := Chain(provider, newHead);
    forall i | 0 <= i < |d.newTips| ensures d.newTips[i] == newChain[i] {}
    forall i | 0 <= i < |d.oldTips| ensures d.oldTips[i] == Chain(provider, oldHead)[i] {}
  }

  /** Mined in a secp list, or in any list. */
  ghost predicate Mined(l: Loader, m: SignedMessage, tips: seq<TipSet>, secpOnly: bool) {
    if secpOnly then MinedSecp(l, m, tips) else MinedIn(l, m, tips)
  }

  ghost predicate NoneMined(l: Loader, p: MessagePool.Pending, chain: seq<TipSet>, secpOnly: bool) {
    forall m | m in p :: !Mined(l, m, chain, secpOnly)
  }

  lemma MinedInReversed(l: Loader, m: SignedMessage, tips: seq<TipSet>)
    ensures MinedSecp(l, m, QueuePolicy.Reversed(tips)) <==> MinedSecp(l, m, tips)
  {
    var r := QueuePolicy.Reversed(tips);
    if i, b :| 0 <= i < |tips| && b in tips[i].blocks && b.messages in l && m in l[b.messages].secp {
      assert r[|tips| - 1 - i] == tips[i];
    }
  }

  /** The pool after a change of chain for which all messages were there: settled, as the inbox does
      it, with the new tipsets in the order the queue policy leaves them in. */
  function PoolAfter(p: MessagePool.Pending, maxSize: nat, valid: MessagePool.Validator, l: Loader, d: Delta,
                     height: Uint64, minimumHeight: Uint64): MessagePool.Pending {
    MessageInbox.Settled(p, maxSize, valid, OfTips(l, d.oldTips).0, OfTips(l, QueuePolicy.Reversed(d.newTips)).0,
                         height, minimumHeight)
  }

  lemma MinedSecpIn(l: Loader, m: SignedMessage, tips: seq<TipSet>)
    requires OfTips(l, QueuePolicy.Reversed(tips)).1
    ensures m in OfTips(l, QueuePolicy.Reversed(tips)).0 <==> MinedSecp(l, m, tips)
  {
    OfTipsMembers(l, QueuePolicy.Reversed(tips), m);
    MinedInReversed(l, m, tips);
  }

  /** The pool is meant to lose what the new chain has mined.  It loses what is in secp lists: a
      pooled message mined in the new tipsets stays if and only if it is in BLS lists alone and is
      not timed out. */
  lemma MinedStaysIff(p: MessagePool.Pending, maxSize: nat, valid: MessagePool.Validator, l: Loader, d: Delta,
                      height: Uint64, minimumHeight: Uint64, m: SignedMessage)
    requires MessagePool.PoolOk(p, maxSize) && OfTips(l, QueuePolicy.Reversed(d.newTips)).1
    requires m in p && MinedIn(l, m, d.newTips)
    ensures m in PoolAfter(p, maxSize, valid, l, d, height, minimumHeight) <==>
              MinedBls(l, m, d.newTips) && !MinedSecp(l, m, d.newTips) && p[m] >= minimumHeight
  {
    hide MessagePool.PoolOk, MessagePool.AddAll, MinedSecp, MinedBls, OfTips, QueuePolicy.Reversed;
    MessagePool.AddAllFacts(p, maxSize, valid, OfTips(l, d.oldTips).0, height);
    MinedSecpIn(l, m, d.newTips);
  }

  /** For one, a BLS message mined in the only block of a new tipset. */
  lemma MinedBlsMessageStays()
    ensures exists l, p, d, m: SignedMessage :: Protocol(m.message.from) == PROTOCOL_BLS && MinedAndPooled(l, p, d, m)
  {
    hide MessagePool.AddAll, MinedSecp, QueuePolicy.Reversed, PoolAfter;
    var from: Address := [PROTOCOL_BLS, 1];
    var m := SignedMessage(Message([0, 102], from, 0, 0, 0, [], 1, 10), []);
    var b := Block([1], [], [], [], 0, 1, [2]);
    var d := Delta([], [TipSet([b], [[1]])]);
    var l: Loader := map[[2] := Collection([], [m.message])];
    var p: MessagePool.Pending := map[m := 1];
    assert b in d.newTips[0].blocks && m.message in l[b.messages].bls;
    assert MinedBls(l, m, d.newTips);
    assert !MinedSecp(l, m, d.newTips) by { NoSecp(l, m, d.newTips); }
    OneTipLoads(l, d.newTips[0], b);
    MinedStaysIff(p, 1, _ => true, l, d, 1, 0, m);
    assert MinedAndPooled(l, p, d, m);
  }

  /** Pooled and mined by the new tipsets, and pooled still when they have been handled. */
  ghost predicate MinedAndPooled(l: Loader, p: MessagePool.Pending, d: Delta, m: SignedMessage) {
    m in p && MinedIn(l, m, d.newTips) && m in PoolAfter(p, 1, _ => true, l, d, 1, 0)
  }

  lemma NoSecp(l: Loader, m: SignedMessage, tips: seq<TipSet>)
    requires forall k | k in l :: l[k].secp == []
    ensures !MinedSecp(l, m, tips)
  {
  }

  lemma OneTipLoads(l: Loader, ts: TipSet, b: Block)
    requires ts.blocks == [b] && b.messages in l
    ensures OfTips(l, QueuePolicy.Reversed([ts])).1
  {
    assert QueuePolicy.Reversed([ts]) == [ts];
    assert [ts][1..] == [] && [b][1..] == [];
    assert BlocksOf([ts]) == [b] + BlocksOf([]) == [b];
    assert OfBlocks(l, []).1;
  }

  /** A message the pool did not have comes from a secp list of the abandoned chain; what is in one
      and not mined again does come, unless the pool may refuse it. */
  lemma AbandonedReturns(p: MessagePool.Pending, maxSize: nat, valid: MessagePool.Validator, l: Loader, d: Delta,
                         height: Uint64, minimumHeight: Uint64, m: SignedMessage)
    requires MessagePool.PoolOk(p, maxSize) && minimumHeight <= height && m !in p
    requires OfTips(l, d.oldTips).1 && OfTips(l, QueuePolicy.Reversed(d.newTips)).1
    ensures m in PoolAfter(p, maxSize, valid, l, d, height, minimumHeight) ==> MinedSecp(l, m, d.oldTips)
    ensures MinedSecp(l, m, d.oldTips) && !MinedSecp(l, m, d.newTips) ==>
              || m in PoolAfter(p, maxSize, valid, l, d, height, minimumHeight)
              || MessagePool.Refusable(MessagePool.AddAll(p, maxSize, valid, OfTips(l, d.oldTips).0, height),
                                       maxSize, valid, m)
  {
    hide MessagePool.PoolOk, MessagePool.AddAll, MessagePool.Refusable, MinedSecp, OfTips, QueuePolicy.Reversed;
    MessageInbox.SettledFacts(p, maxSize, valid, OfTips(l, d.oldTips).0, OfTips(l, QueuePolicy.Reversed(d.newTips)).0,
                              height, minimumHeight);
    MinedSecpIn(l, m, d.newTips);
    OfTipsMembers(l, d.oldTips, m);
  }

  /** No pooled message is mined in BLS lists of new tipsets alone and young enough to stay. */
  ghost predicate NoBlsStays(l: Loader, p: MessagePool.Pending, newTips: seq<TipSet>, minimumHeight: Uint64) {
    forall m | m in p && MinedBls(l, m, newTips) && !MinedSecp(l, m, newTips) :: p[m] < minimumHeight
  }

  /** What comes into a pool is not mined on a chain. */
  ghost predicate NewIsOff(l: Loader, p: MessagePool.Pending, q: MessagePool.Pending, chain: seq<TipSet>,
                           secpOnly: bool) {
    forall m | m in q && m !in p :: !Mined(l, m, chain, secpOnly)
  }

  /** One change of chain: a pool without mined messages stays one if and only if no BLS message stays
      and no message restored is mined on the new chain; for messages in secp lists only the second
      matters. */
  lemma ChangeLeavesNoneMinedIff(p: MessagePool.Pending, maxSize: nat, valid: MessagePool.Validator, l: Loader,
                                 provider: Provider, oldHead: TipSet, newHead: TipSet, d: Delta,
                                 height: Uint64, minimumHeight: Uint64, secpOnly: bool)
    requires MessagePool.PoolOk(p, maxSize) && minimumHeight <= height
    requires WellFormed(provider) && Holds(provider, oldHead) && Holds(provider, newHead)
    requires IsDelta(provider, oldHead, newHead, d) && OfTips(l, QueuePolicy.Reversed(d.newTips)).1
    requires NoneMined(l, p, Chain(provider, oldHead), secpOnly)
    ensures var q := PoolAfter(p, maxSize, valid, l, d, height, minimumHeight);
            && MessagePool.PoolOk(q, maxSize)
            && (NoneMined(l, q, Chain(provider, newHead), secpOnly) <==>
                  && (secpOnly || NoBlsStays(l, p, d.newTips, minimumHeight))
                  && NewIsOff(l, p, q, Chain(provider, newHead), secpOnly))
  {
    hide MessagePool.PoolOk, MessagePool.Refusable, MessagePool.AddAll, MinedSecp, MinedBls, OfTips,
      QueuePolicy.Reversed, Chain, WellFormed;
    var mined := OfTips(l, QueuePolicy.Reversed(d.newTips)).0;
    MessageInbox.SettledFacts(p, maxSize, valid, OfTips(l, d.oldTips).0, mined, height, minimumHeight);
    var q := PoolAfter(p, maxSize, valid, l, d, height, minimumHeight);
    var oldChain, newChain := Chain(provider, oldHead), Chain(provider, newHead);
    forall m | m in p
      ensures m in q <==> !MinedSecp(l, m, d.newTips) && p[m] >= minimumHeight
      ensures !MinedSecp(l, m, oldChain) ==> (MinedSecp(l, m, newChain) <==> MinedSecp(l, m, d.newTips))
      ensures !MinedBls(l, m, oldChain) ==> (MinedBls(l, m, newChain) <==> MinedBls(l, m, d.newTips))
    {
      MinedSecpIn(l, m, d.newTips);
      StaysIff(p, maxSize, valid, OfTips(l, d.oldTips).0, mined, height, minimumHeight, m);
      MinedOnNewChain(l, m, d, oldChain);
    }
  }

  lemma StaysIff(p: MessagePool.Pending, maxSize: nat, valid: MessagePool.Validator, restored: seq<SignedMessage>,
                 mined: seq<SignedMessage>, height: Uint64, minimumHeight: Uint64, m: SignedMessage)
    requires MessagePool.PoolOk(p, maxSize) && m in p
    ensures var q := MessageInbox.Settled(p, maxSize, valid, restored, mined, height, minimumHeight);
            m in q <==> m !in mined && p[m] >= minimumHeight
  {
    hide MessagePool.PoolOk, MessagePool.AddAll;
    MessagePool.AddAllFacts(p, maxSize, valid, restored, height);
  }

  lemma MinedOnNewChain(l: Loader, m: SignedMessage, d: Delta, oldChain: seq<TipSet>)
    requires |d.oldTips| <= |oldChain| && d.oldTips == oldChain[..|d.oldTips|]
    ensures var newChain := d.newTips + oldChain[|d.oldTips|..];
            && (!MinedSecp(l, m, oldChain) ==> (MinedSecp(l, m, newChain) <==> MinedSecp(l, m, d.newTips)))
            && (!MinedBls(l, m, oldChain) ==> (MinedBls(l, m, newChain) <==> MinedBls(l, m, d.newTips)))
  {
    hide MinedSecp, MinedBls;
    assert oldChain == d.oldTips + oldChain[|d.oldTips|..];
    MinedInJoined(l, m, d.oldTips, oldChain[|d.oldTips|..]);
    MinedInJoined(l, m, d.newTips, oldChain[|d.oldTips|..]);
  }

  /** The height messages are tagged with that a change of chain restores. */
  function HeightOf(d: Delta): Uint64 {
    match ReorgHeight(d.oldTips, QueuePolicy.Reversed(d.newTips))
    case Some(height) => height
    case None => 0
  }

  /** The height below which a change of chain times messages out: back by the age allowed from the
      lowest new tipset. */
  ghost function BoundOf(provider: Provider, d: Delta, maxAge: nat): Uint64
    requires WellFormed(provider) && LowestIsHeld(provider, d)
  {
    var r := QueuePolicy.Reversed(d.newTips);
    if |r| == 0 then 0 else (ChainFacts(provider, r[0]); MessageInbox.HeightBack(Chain(provider, r[0]), maxAge))
  }

  lemma BoundIsBelow(provider: Provider, d: Delta, maxAge: nat)
    requires WellFormed(provider) && LowestIsHeld(provider, d)
    ensures BoundOf(provider, d, maxAge) <= HeightOf(d)
  {
    hide Chain, WellFormed;
    var r := QueuePolicy.Reversed(d.newTips);
    if |r| > 0 {
      ChainFacts(provider, r[0]);
      MessageInbox.HeightBackIsBelow(Chain(provider, r[0]), maxAge);
    }
  }

  datatype Event =
    | Received(msg: SignedMessage, at: Uint64, valid: MessagePool.Validator)
    | Dropped(removed: SignedMessage)
    | Moved(step: Step, valid: MessagePool.Validator, height: Uint64, minimumHeight: Uint64)

  /** A run of a node: messages come in and are judged, whatever by, and the head moves. */
  ghost predicate Possible(l: Loader, maxAge: nat, p: Provider, head: TipSet, events: seq<Event>)
    decreases events
  {
    && WellFormed(p) && Linked(p) && Holds(p, head)
    && (events != [] ==>
          match events[0]
          case Received(_, _, _) => Possible(l, maxAge, p, head, events[1..])
          case Dropped(_) => Possible(l, maxAge, p, head, events[1..])
          case Moved(s, _, height, minimumHeight) =>
            && Follows(p, head, [s]) && LowestIsHeld(s.provider, s.delta)
            && height == HeightOf(s.delta) && minimumHeight == BoundOf(s.provider, s.delta, maxAge)
            && OfTips(l, QueuePolicy.Reversed(s.delta.newTips)).1
            && Possible(l, maxAge, s.provider, s.head, events[1..]))
  }

  function PoolStep(p: MessagePool.Pending, maxSize: nat, l: Loader, e: Event): MessagePool.Pending {
    match e
    case Received(m, at, valid) => MessagePool.AddTo(p, maxSize, valid, m, at).0
    case Dropped(m) => p - {m}
    case Moved(s, valid, height, minimumHeight) => PoolAfter(p, maxSize, valid, l, s.delta, height, minimumHeight)
  }

  function HeadStep(p: Provider, head: TipSet, e: Event): (Provider, TipSet) {
    if e.Moved? then (e.step.provider, e.step.head) else (p, head)
  }

  /** An event leaves a pool without mined messages without them: what it brings in is not mined on the
      chain then, and no BLS message stays that it mines. */
  ghost predicate KeepsClean(l: Loader, p: Provider, head: TipSet, pool: MessagePool.Pending, maxSize: nat, e: Event,
                             secpOnly: bool)
    requires var (q, next) := HeadStep(p, head, e); WellFormed(q) && Holds(q, next)
  {
    var (q, next) := HeadStep(p, head, e);
    && NewIsOff(l, pool, PoolStep(pool, maxSize, l, e), Chain(q, next), secpOnly)
    && (e.Moved? && !secpOnly ==> NoBlsStays(l, pool, e.step.delta.newTips, e.minimumHeight))
  }

  /** What one event does to what is known of the pool. */
  lemma EventKeeps(l: Loader, maxAge: nat, p: Provider, head: TipSet, pool: MessagePool.Pending, maxSize: nat,
                   events: seq<Event>, secpOnly: bool)
    requires events != [] && Possible(l, maxAge, p, head, events) && MessagePool.PoolOk(pool, maxSize)
    ensures var (q, next) := HeadStep(p, head, events[0]);
            var pool' := PoolStep(pool, maxSize, l, events[0]);
            && Possible(l, maxAge, q, next, events[1..]) && WellFormed(q) && Holds(q, next)
            && MessagePool.PoolOk(pool', maxSize)
            && (NoneMined(l, pool, Chain(p, head), secpOnly) ==>
                  (NoneMined(l, pool', Chain(q, next), secpOnly) <==>
                     KeepsClean(l, p, head, pool, maxSize, events[0], secpOnly)))
  {
    hide MessagePool.PoolOk, Chain, Mined, WellFormed, Linked, OfTips, PoolAfter, NoBlsStays;
    match events[0]
    case Received(m, at, valid) =>
      MessagePool.AddKeepsPool(pool, maxSize, valid, m, at);
    case Dropped(m) =>
      MessagePool.RestrictKeepsPool(pool - {m}, pool, maxSize);
    case Moved(s, valid, height, minimumHeight) =>
      ChainIsKept(p, s.provider, head);
      BoundIsBelow(s.provider, s.delta, maxAge);
      MovedKeeps(l, s.provider, head, s.head, s.delta, pool, maxSize, valid, height, minimumHeight, secpOnly);
  }

  lemma MovedKeeps(l: Loader, provider: Provider, oldHead: TipSet, newHead: TipSet, d: Delta, p: MessagePool.Pending,
                   maxSize: nat, valid: MessagePool.Validator, height: Uint64, minimumHeight: Uint64, secpOnly: bool)
    requires MessagePool.PoolOk(p, maxSize) && minimumHeight <= height
    requires WellFormed(provider) && Holds(provider, oldHead) && Holds(provider, newHead)
    requires IsDelta(provider, oldHead, newHead, d) && OfTips(l, QueuePolicy.Reversed(d.newTips)).1
    ensures var q := PoolAfter(p, maxSize, valid, l, d, height, minimumHeight);
            && MessagePool.PoolOk(q, maxSize)
            && (NoneMined(l, p, Chain(provider, oldHead), secpOnly) ==>
                  (NoneMined(l, q, Chain(provider, newHead), secpOnly) <==>
                     && (secpOnly || NoBlsStays(l, p, d.newTips, minimumHeight))
                     && NewIsOff(l, p, q, Chain(provider, newHead), secpOnly)))
  {
    hide *;
    SettledIsOk(p, maxSize, valid, l, d, height, minimumHeight);
    if NoneMined(l, p, Chain(provider, oldHead), secpOnly) {
      ChangeLeavesNoneMinedIff(p, maxSize, valid, l, provider, oldHead, newHead, d, height, minimumHeight, secpOnly);
    }
  }

  lemma SettledIsOk(p: MessagePool.Pending, maxSize: nat, valid: MessagePool.Validator, l: Loader, d: Delta,
                    height: Uint64, minimumHeight: Uint64)
    requires MessagePool.PoolOk(p, maxSize) && minimumHeight <= height
    ensures MessagePool.PoolOk(PoolAfter(p, maxSize, valid, l, d, height, minimumHeight), maxSize)
  {
    hide MessagePool.PoolOk, MessagePool.AddAll, MessagePool.Refusable, OfTips, QueuePolicy.Reversed,
      MessageInbox.Settled;
    MessageInbox.SettledFacts(p, maxSize, valid, OfTips(l, d.oldTips).0,
                              OfTips(l, QueuePolicy.Reversed(d.newTips)).0, height, minimumHeight);
  }

  /** At every moment of a run the pool is in order and holds nothing mined on the chain of that moment. */
  ghost predicate AlwaysClean(l: Loader, maxAge: nat, p: Provider, head: TipSet, pool: MessagePool.Pending,
                              maxSize: nat, events: seq<Event>, secpOnly: bool)
    requires Possible(l, maxAge, p, head, events) && MessagePool.PoolOk(pool, maxSize)
    decreases events
  {
    && NoneMined(l, pool, Chain(p, head), secpOnly)
    && (events == [] || (
          EventKeeps(l, maxAge, p, head, pool, maxSize, events, secpOnly);
          var (q, next) := HeadStep(p, head, events[0]);
          AlwaysClean(l, maxAge, q, next, PoolStep(pool, maxSize, l, events[0]), maxSize, events[1..], secpOnly)))
  }

  /** Every event of a run keeps the pool clean. */
  ghost predicate AllKeepClean(l: Loader, maxAge: nat, p: Provider, head: TipSet, pool: MessagePool.Pending,
                               maxSize: nat, events: seq<Event>, secpOnly: bool)
    requires Possible(l, maxAge, p, head, events) && MessagePool.PoolOk(pool, maxSize)
    decreases events
  {
    events == [] || (
      EventKeeps(l, maxAge, p, head, pool, maxSize, events, secpOnly);
      var (q, next) := HeadStep(p, head, events[0]);
      && KeepsClean(l, p, head, pool, maxSize, events[0], secpOnly)
      && AllKeepClean(l, maxAge, q, next, PoolStep(pool, maxSize, l, events[0]), maxSize, events[1..], secpOnly))
  }

  /** Whatever the validator, the pool is clean of mined messages all through a run if and only if no
      message that is taken in or restored is on the chain of that moment and no BLS message stays
      that the new tipsets have mined; and it is clean of what is in secp lists if and only if none
      that is taken in or restored is in one. */
  lemma {:induction false} PoolIsCleanIff(l: Loader, maxAge: nat, p: Provider, head: TipSet, pool: MessagePool.Pending,
                                          maxSize: nat, events: seq<Event>, secpOnly: bool)
    requires Possible(l, maxAge, p, head, events)
    requires MessagePool.PoolOk(pool, maxSize) && NoneMined(l, pool, Chain(p, head), secpOnly)
    ensures AlwaysClean(l, maxAge, p, head, pool, maxSize, events, secpOnly) <==>
              AllKeepClean(l, maxAge, p, head, pool, maxSize, events, secpOnly)
    decreases events
  {
    hide MessagePool.PoolOk, Chain, NoneMined, KeepsClean, WellFormed, Linked, PoolStep, HeadStep, Possible;
    if events != [] {
      EventKeeps(l, maxAge, p, head, pool, maxSize, events, secpOnly);
      var (q, next) := HeadStep(p, head, events[0]);
      var pool' := PoolStep(pool, maxSize, l, events[0]);
      if NoneMined(l, pool', Chain(q, next), secpOnly) {
        PoolIsCleanIff(l, maxAge, q, next, pool', maxSize, events[1..], secpOnly);
      }
    }
  }

  // ----- with a validator that knows what is mined -----

  /** A validator that turns away what is on the chain. */
  ghost predicate RejectsMined(l: Loader, valid: MessagePool.Validator, chain: seq<TipSet>) {
    forall m | valid(m) :: !MinedIn(l, m, chain)
  }

  /** All through a run messages are judged by such a validator. */
  ghost predicate JudgedByChain(l: Loader, maxAge: nat, p: Provider, head: TipSet, events: seq<Event>)
    requires Possible(l, maxAge, p, head, events)
    decreases events
  {
    events == [] ||
      match events[0]
      case Received(_, _, valid) =>
        RejectsMined(l, valid, Chain(p, head)) && JudgedByChain(l, maxAge, p, head, events[1..])
      case Dropped(_) => JudgedByChain(l, maxAge, p, head, events[1..])
      case Moved(s, valid, _, _) =>
        RejectsMined(l, valid, Chain(s.provider, s.head)) && JudgedByChain(l, maxAge, s.provider, s.head, events[1..])
  }

  /** Then nothing mined is taken in or restored. */
  lemma JudgedIsOff(l: Loader, maxAge: nat, p: Provider, head: TipSet, pool: MessagePool.Pending, maxSize: nat,
                    events: seq<Event>, secpOnly: bool)
    requires events != [] && Possible(l, maxAge, p, head, events) && JudgedByChain(l, maxAge, p, head, events)
    requires MessagePool.PoolOk(pool, maxSize)
    ensures var (q, next) := HeadStep(p, head, events[0]);
            && WellFormed(q) && Holds(q, next)
            && NewIsOff(l, pool, PoolStep(pool, maxSize, l, events[0]), Chain(q, next), secpOnly)
            && Possible(l, maxAge, q, next, events[1..]) && JudgedByChain(l, maxAge, q, next, events[1..])
  {
    hide MessagePool.PoolOk, Chain, MinedSecp, MinedBls, WellFormed, Linked, OfTips, MessagePool.AddAll,
      MessagePool.Refusable, QueuePolicy.Reversed;
    if events[0].Moved? {
      var e := events[0];
      BoundIsBelow(e.step.provider, e.step.delta, maxAge);
      MessageInbox.SettledFacts(pool, maxSize, e.valid, OfTips(l, e.step.delta.oldTips).0,
                                OfTips(l, QueuePolicy.Reversed(e.step.delta.newTips)).0, e.height, e.minimumHeight);
    }
  }

  /** So the pool never holds a message of a secp list on the chain of the current head. */
  lemma {:induction false} PoolNeverHoldsMinedSecp(l: Loader, maxAge: nat, p: Provider, head: TipSet,
                                                   pool: MessagePool.Pending, maxSize: nat, events: seq<Event>)
    requires Possible(l, maxAge, p, head, events) && JudgedByChain(l, maxAge, p, head, events)
    requires MessagePool.PoolOk(pool, maxSize) && NoneMined(l, pool, Chain(p, head), true)
    ensures AlwaysClean(l, maxAge, p, head, pool, maxSize, events, true)
    decreases events
  {
    hide MessagePool.PoolOk, Chain, NoneMined, NewIsOff, WellFormed, Linked, PoolStep, HeadStep, Possible,
      JudgedByChain;
    if events != [] {
      EventKeeps(l, maxAge, p, head, pool, maxSize, events, true);
      JudgedIsOff(l, maxAge, p, head, pool, maxSize, events, true);
      var (q, next) := HeadStep(p, head, events[0]);
      PoolNeverHoldsMinedSecp(l, maxAge, q, next, PoolStep(pool, maxSize, l, events[0]), maxSize, events[1..]);
    }
  }

  /** The node's own validator is not such a one.  A message in a block that was not applied, since the
      sender had spent what it needs, is taken into the pool once the sender has it again, and is on
      the chain all the time. */
  lemma UnappliedIsPooled(actors: MessageSemantics.Actors, owner: Address)
    ensures exists l, ts :: IngestedThoughMined(LaterTree(actors, owner), l, ts, SignedMessage(Ingestion.SECOND, []))
  {
    hide MessageSemantics.ApplyAll, Ingestion.Ingests;
    var m := SignedMessage(Ingestion.SECOND, []);
    Ingestion.UnappliedIsIngested(actors, owner);
    var t := LaterTree(actors, owner);
    var b := Block([1], [], [], [], 0, 1, [2]);
    var ts := TipSet([b], [[1]]);
    var l: Loader := map[[2] := Collection([SignedMessage(Ingestion.FIRST, []), m], [])];
    assert b in [ts][0].blocks && l[b.messages].secp[1] == m;
    assert MinedSecp(l, m, [ts]) && MinedIn(l, m, [ts]);
    var valid := x => Ingestion.Ingests(t, 100, x);
    assert valid(m);
    assert !RejectsMined(l, valid, [ts]);
    assert m in MessagePool.AddTo(map[], 1, valid, m, 0).0;
    assert IngestedThoughMined(t, l, ts, m);
  }

  /** The state when the one block was applied, the messages of the other one were not, and the sender
      has enough again. */
  function LaterTree(actors: MessageSemantics.Actors, owner: Address): Tree {
    var start := Ingestion.Accounts(100, 0, 0, 0);
    var spent := MessageSemantics.ApplyAll(actors, start, NO_GAS, [Ingestion.SPENDS], owner).tree;
    var after := MessageSemantics.ApplyAll(actors, spent, NO_GAS, [Ingestion.FIRST, Ingestion.SECOND], owner).tree;
    MessageSemantics.ApplyAll(actors, after, NO_GAS, [Ingestion.RETURNS], owner).tree
  }

  /** On the chain, and taken into an empty pool all the same. */
  ghost predicate IngestedThoughMined(t: Tree, l: Loader, ts: TipSet, m: SignedMessage) {
    var valid := x => Ingestion.Ingests(t, 100, x);
    && MinedSecp(l, m, [ts]) && !RejectsMined(l, valid, [ts])
    && m in MessagePool.AddTo(map[], 1, valid, m, 0).0
  }

  // ----- the handler -----

  /** The pool and the queue were brought from one head to the other. */
  ghost predicate BroughtTo(provider: Provider, oldHead: TipSet, newHead: TipSet, d: Delta, l: Loader,
                            qs: OutboundQueue.Queues, qs': OutboundQueue.Queues, maxAgeRounds: Uint64,
                            p: MessagePool.Pending, p': MessagePool.Pending, maxSize: nat, maxAgeTipsets: nat,
                            valid: MessagePool.Validator, inboxOk: bool)
    requires WellFormed(provider) && Holds(provider, oldHead) && Holds(provider, newHead)
  {
    && IsDelta(provider, oldHead, newHead, d)
    && LowestIsHeld(provider, d)
    && qs' == QueuePolicy.PolicyAfter(qs, l, maxAgeRounds, d.oldTips, d.newTips).0
    && MessageInbox.IsHandled(p, p', inboxOk, maxSize, valid, l, provider, maxAgeTipsets, d.oldTips,
                              QueuePolicy.Reversed(d.newTips))
  }

  /** `HeadHandler`. */
  class HeadHandler {
    const inbox: MessageInbox.Inbox
    const queue: OutboundQueue.Queue
    const maxAgeRounds: Uint64
    var prevHead: TipSet

    constructor (i: MessageInbox.Inbox, q: OutboundQueue.Queue, maxAge: Uint64, head: TipSet)
      ensures inbox == i && queue == q && maxAgeRounds == maxAge && prevHead == head
    {
      inbox, queue, maxAgeRounds, prevHead := i, q, maxAge, head;
    }

    /** Ok(false) for a head that is ignored.  What goes wrong in the queue or in the pool is only
        logged: the head is followed all the same. */
    method HandleNewHead(valid: MessagePool.Validator, l: Loader, provider: Provider, newHead: TipSet)
      returns (r: Result<bool, FindError>)
      requires queue.Valid() && inbox.pool.Valid()
      requires WellFormed(provider) && Holds(provider, prevHead) && (newHead.Defined() ==> Holds(provider, newHead))
      modifies this, queue, inbox.pool
      ensures queue.Valid() && inbox.pool.Valid()
      ensures r == Ok(false) <==> !newHead.Defined() || newHead == old(prevHead)
      ensures r != Ok(true) ==>
                && prevHead == old(prevHead) && queue.queues == old(queue.queues)
                && inbox.pool.pending == old(inbox.pool.pending)
      ensures r == Err(NoCommonAncestor) ==>
                newHead.Defined() && Disjoint(Chain(provider, old(prevHead)), Chain(provider, newHead))
      ensures r == Err(NotFound) ==> !Linked(provider)
      ensures r == Ok(true) ==> prevHead == newHead && newHead.Defined() && Holds(provider, newHead)
      ensures r == Ok(true) ==>
                exists d, inboxOk ::
                  BroughtTo(provider, old(prevHead), newHead, d, l, old(queue.queues), queue.queues, maxAgeRounds,
                            old(inbox.pool.pending), inbox.pool.pending, inbox.pool.maxPoolSize, inbox.maxAgeTipsets,
                            valid, inboxOk)
    {
      hide Chain, WellFormed, Linked, Disjoint, IsDelta, MessageInbox.IsHandled, QueuePolicy.PolicyAfter,
        QueuePolicy.Reversed, ReorgHeight, OutboundQueue.AllContiguous, MessagePool.PoolOk, MessagePool.Pairs;
      if !newHead.Defined() { return Ok(false); }
      if newHead.key == prevHead.key { return Ok(false); }
      var tips := CollectTipsToCommonAncestor(provider, prevHead, newHead);
      if tips.Err? { return Err(tips.error); }
      var d := tips.value;
      DeltaFacts(provider, prevHead, newHead, d);
      var newTips := new TipSet[|d.newTips|](i requires 0 <= i < |d.newTips| => d.newTips[i]);
      assert newTips[..] == d.newTips;
      var outboxOk := QueuePolicy.HandleNewHead(queue, l, maxAgeRounds, d.oldTips, newTips);
      var inboxOk := inbox.HandleNewHead(valid, l, provider, d.oldTips, newTips[..]);
      assert BroughtTo(provider, old(prevHead), newHead, d, l, old(queue.queues), queue.queues, maxAgeRounds,
                       old(inbox.pool.pending), inbox.pool.pending, inbox.pool.maxPoolSize, inbox.maxAgeTipsets,
                       valid, inboxOk);
      prevHead := newHead;
      r := Ok(true);
    }
  }

  /** When all messages and all parents are there, the handler's pool is the one of a run, with the
      heights that the tipsets and the age allowed give. */
  lemma HandledIsPoolAfter(provider: Provider, oldHead: TipSet, newHead: TipSet, d: Delta, l: Loader,
                           p: MessagePool.Pending, p': MessagePool.Pending, maxSize: nat, maxAge: nat,
                           valid: MessagePool.Validator, ok: bool)
    requires WellFormed(provider) && Linked(provider) && Holds(provider, oldHead) && Holds(provider, newHead)
    requires IsDelta(provider, oldHead, newHead, d) && LowestIsHeld(provider, d)
    requires OfTips(l, d.oldTips).1 && OfTips(l, QueuePolicy.Reversed(d.newTips)).1
    requires MessageInbox.IsHandled(p, p', ok, maxSize, valid, l, provider, maxAge, d.oldTips,
                                    QueuePolicy.Reversed(d.newTips))
    ensures ok && p' == PoolAfter(p, maxSize, valid, l, d, HeightOf(d), BoundOf(provider, d, maxAge))
  {
    hide Chain, WellFormed, IsDelta, OfTips, MessagePool.AddAll, MessageInbox.EndsEarly;
    DeltaFacts(provider, oldHead, newHead, d);
    var r := QueuePolicy.Reversed(d.newTips);
    if |r| > 0 { MessageInbox.LinkedNeverEndsEarly(provider, r[0], maxAge); }
  }

  /** The inbox asks for new tipsets from the head down and is given them from the lowest up.  So
      messages time out at the height promised, counted from the head, if and only if no more than
      one tipset came at once or the whole chain is within the age allowed. */
  lemma TimeoutIsPromisedIff(provider: Provider, oldHead: TipSet, newHead: TipSet, d: Delta, maxAge: nat)
    requires WellFormed(provider) && Holds(provider, oldHead) && Holds(provider, newHead)
    requires IsDelta(provider, oldHead, newHead, d) && d.newTips != []
    ensures LowestIsHeld(provider, d)
    ensures var c, lower := Chain(provider, newHead), Chain(provider, QueuePolicy.Reversed(d.newTips)[0]);
            && AllDefined(c) && AllDefined(lower)
            && MessageInbox.HeightBack(lower, maxAge) <= MessageInbox.HeightBack(c, maxAge)
            && (MessageInbox.HeightBack(lower, maxAge) == MessageInbox.HeightBack(c, maxAge) <==>
                |d.newTips| == 1 || maxAge >= |c| - 1)
  {
    hide Chain, MessageInbox.HeightBack;
    DeltaFacts(provider, oldHead, newHead, d);
    ChainFacts(provider, newHead);
    var c, added := Chain(provider, newHead), |d.newTips|;
    assert c[added - 1] == QueuePolicy.Reversed(d.newTips)[0];
    ChainSuffix(provider, newHead, added - 1);
    MessageInbox.TimeoutFromLowestIff(c, added, maxAge);
  }

  // ----- three tipsets at once -----

  function KeyOf(n: Byte): TipSetKey {
    [[n]]
  }

  lemma KeysDiffer(m: Byte, n: Byte)
    ensures KeyOf(m) == KeyOf(n) ==> m == n
  {
    assert KeyOf(m)[0][0] == m && KeyOf(n)[0][0] == n;
  }

  /** The tipset at a height of a chain with one block at each. */
  function Tip(n: Byte): TipSet {
    TipSet([Block([n], [], [], if n == 0 then [] else KeyOf(n - 1), 0, n, [])], KeyOf(n))
  }

  const FOUR: Provider := map[KeyOf(0) := Tip(0), KeyOf(1) := Tip(1), KeyOf(2) := Tip(2), KeyOf(3) := Tip(3)]

  lemma FourIsAChain()
    ensures WellFormed(FOUR) && Holds(FOUR, Tip(0)) && Holds(FOUR, Tip(3))
    ensures Chain(FOUR, Tip(0)) == [Tip(0)] && Chain(FOUR, Tip(3)) == [Tip(3), Tip(2), Tip(1), Tip(0)]
  {
    KeysDiffer(0, 1);
    KeysDiffer(0, 2);
    KeysDiffer(0, 3);
    KeysDiffer(1, 2);
    KeysDiffer(1, 3);
    KeysDiffer(2, 3);
    hide KeyOf;
    assert FOUR[KeyOf(1)] == Tip(1) && FOUR[KeyOf(2)] == Tip(2) && FOUR[KeyOf(3)] == Tip(3);
    NotEmpty();
    assert WellFormed(FOUR);
    assert Chain(FOUR, Tip(0)) == [Tip(0)];
    assert Chain(FOUR, Tip(1)) == [Tip(1)] + Chain(FOUR, Tip(0));
    assert Chain(FOUR, Tip(2)) == [Tip(2)] + Chain(FOUR, Tip(1));
    assert Chain(FOUR, Tip(3)) == [Tip(3)] + Chain(FOUR, Tip(2));
  }

  lemma NotEmpty()
    ensures forall n: Byte :: KeyOf(n) != []
  {
  }

  /** The height at which the handler times messages out is lower than the one promised. */
  ghost predicate TimesOutLate(provider: Provider, oldHead: TipSet, newHead: TipSet, d: Delta, maxAge: nat) {
    && WellFormed(provider) && Holds(provider, oldHead) && Holds(provider, newHead)
    && IsDelta(provider, oldHead, newHead, d) && d.newTips != [] && LowestIsHeld(provider, d)
    && var c, lower := Chain(provider, newHead), Chain(provider, QueuePolicy.Reversed(d.newTips)[0]);
    && AllDefined(c) && AllDefined(lower)
    && MessageInbox.HeightBack(lower, maxAge) < MessageInbox.HeightBack(c, maxAge)
  }

  /** For one, when a head three tipsets up comes at once and no age is allowed. */
  lemma ThreeAtOnceTimeOutLate()
    ensures exists provider, oldHead, newHead, d: Delta ::
              |d.newTips| == 3 && TimesOutLate(provider, oldHead, newHead, d, 0)
  {
    FourIsAChain();
    hide Chain, WellFormed;
    var d := Delta([], [Tip(3), Tip(2), Tip(1)]);
    forall x | x in d.newTips ensures x !in [Tip(0)] {
      assert x.Height() > 0;
    }
    assert Chain(FOUR, Tip(3)) == d.newTips + Chain(FOUR, Tip(0))[0..];
    assert IsDelta(FOUR, Tip(0), Tip(3), d);
    TimeoutIsPromisedIff(FOUR, Tip(0), Tip(3), d, 0);
    assert TimesOutLate(FOUR, Tip(0), Tip(3), d, 0);
  }
}
