/** What a new head does to the queue of outgoing messages. */
module QueuePolicy {
  import opened Primitives
  import opened StateTree
  import opened Messages
  import opened TipSets
  import opened MinedMessages
  import opened OutboundQueue

  function Reversed<T>(s: seq<T>): seq<T> {
    seq(|s|, i requires 0 <= i < |s| => s[|s| - 1 - i])
  }

  /** `Reverse`, in place. */
  method Reverse(chain: array<TipSet>)
    modifies chain
    ensures chain[..] == Reversed(old(chain[..]))
  {
    var n := chain.Length;
    var i := n / 2;
    while i > 0
      invariant 0 <= i <= n / 2
      invariant forall k | 0 <= k < n ::
                  chain[k] == if k < i || n - 1 - k < i then old(chain[k]) else old(chain[n - 1 - k])
    {
      i := i - 1;
      var opp := n - 1 - i;
      chain[i], chain[opp] := chain[opp], chain[i];
    }
  }

  // ----- messages of an abandoned chain -----

  /** The loop of the policy over messages to return to the queue; it stops at the first error. */
  function RequeueAll(qs: Queues, msgs: seq<SignedMessage>, stamp: Uint64): (Queues, bool)
    decreases msgs
  {
    if msgs == [] then (qs, true)
    else
      var (qs', ok) := Requeued(qs, msgs[0], stamp);
      if !ok then (qs', false) else RequeueAll(qs', msgs[1..], stamp)
  }

  function HeadNonce(q: seq<Queued>): Option<Uint64> {
    if q == [] then None else Some(Nonce(q[0]))
  }

  /** Each nonce is one less than the one before it, and the first one less than the head. */
  predicate StepsDown(nonces: seq<Uint64>, head: Option<Uint64>)
    decreases nonces
  {
    nonces == [] ||
      ((head.Some? ==> nonces[0] == Wrap(head.value as int - 1)) && StepsDown(nonces[1..], Some(nonces[0])))
  }

  /** One sender's messages, last first. */
  function Restored(msgs: seq<SignedMessage>, a: Address, stamp: Uint64): seq<Queued> {
    if msgs == [] then []
    else Restored(msgs[1..], a, stamp) + if msgs[0].message.from == a then [Queued(msgs[0], stamp)] else []
  }

  /** Messages go back to the queue if and only if those of every sender come in the reverse order
      of their nonces, down from the head of the sender's list; and then each list has them in
      front. */
  lemma {:induction false} RequeueAllIff(qs: Queues, msgs: seq<SignedMessage>, stamp: Uint64)
    ensures RequeueAll(qs, msgs, stamp).1 <==>
              forall a: Address :: StepsDown(NoncesOf(msgs, a), HeadNonce(QueueOf(qs, a)))
    ensures RequeueAll(qs, msgs, stamp).1 ==>
              forall a: Address ::
                QueueOf(RequeueAll(qs, msgs, stamp).0, a) == Restored(msgs, a, stamp) + QueueOf(qs, a)
    decreases msgs
  {
    hide NoncesOf;
    if msgs == [] {
      forall a: Address ensures [] + QueueOf(qs, a) == QueueOf(qs, a) && NoncesOf(msgs, a) == [] { NoncesOfNone(a); }
    } else {
      var a := msgs[0].message.from;
      var (qs', ok) := Requeued(qs, msgs[0], stamp);
      NoncesOfFirst(msgs, a);
      if ok {
        RequeueAllIff(qs', msgs[1..], stamp);
        forall b: Address
          ensures StepsDown(NoncesOf(msgs, b), HeadNonce(QueueOf(qs, b)))
             <==> StepsDown(NoncesOf(msgs[1..], b), HeadNonce(QueueOf(qs', b)))
          ensures Restored(msgs, b, stamp) + QueueOf(qs, b) == Restored(msgs[1..], b, stamp) + QueueOf(qs', b)
        {
          OneRequeued(qs, msgs, stamp, b);
        }
      } else {
        assert !StepsDown(NoncesOf(msgs, a), HeadNonce(QueueOf(qs, a)));
      }
    }
  }

  lemma OneRequeued(qs: Queues, msgs: seq<SignedMessage>, stamp: Uint64, b: Address)
    requires msgs != [] && Requeued(qs, msgs[0], stamp).1
    ensures var qs' := Requeued(qs, msgs[0], stamp).0;
            && (StepsDown(NoncesOf(msgs, b), HeadNonce(QueueOf(qs, b)))
                <==> StepsDown(NoncesOf(msgs[1..], b), HeadNonce(QueueOf(qs', b))))
            && Restored(msgs, b, stamp) + QueueOf(qs, b) == Restored(msgs[1..], b, stamp) + QueueOf(qs', b)
  {
    hide NoncesOf;
    var qs' := Requeued(qs, msgs[0], stamp).0;
    NoncesOfFirst(msgs, b);
    if b == msgs[0].message.from {
      assert NoncesOf(msgs, b)[1..] == NoncesOf(msgs[1..], b);
      assert QueueOf(qs', b) == [Queued(msgs[0], stamp)] + QueueOf(qs, b);
    } else {
      assert NoncesOf(msgs, b) == NoncesOf(msgs[1..], b);
      assert Restored(msgs, b, stamp) == Restored(msgs[1..], b, stamp);
    }
  }

  lemma {:induction false} StepsDownAt(nonces: seq<Uint64>, head: Option<Uint64>, i: nat)
    requires StepsDown(nonces, head) && i + 1 < |nonces|
    ensures nonces[i + 1] == Wrap(nonces[i] as int - 1)
    decreases nonces
  {
    if i == 0 { assert nonces[1..][0] == nonces[1]; }
    else { StepsDownAt(nonces[1..], Some(nonces[0]), i - 1); }
  }

  /** The messages of a block are in ascending order of nonces.  So an abandoned block with two
      messages of one sender cannot be returned to the queue, whatever the queue holds. */
  lemma AscendingNoncesAreNotRequeued(qs: Queues, msgs: seq<SignedMessage>, stamp: Uint64, a: Address, i: nat)
    requires i + 1 < |NoncesOf(msgs, a)| && NoncesOf(msgs, a)[i + 1] == NoncesOf(msgs, a)[i] as int + 1
    ensures !RequeueAll(qs, msgs, stamp).1
  {
    RequeueAllIff(qs, msgs, stamp);
    NextIsNotPrevious(NoncesOf(msgs, a)[i]);
    if RequeueAll(qs, msgs, stamp).1 {
      StepsDownAt(NoncesOf(msgs, a), HeadNonce(QueueOf(qs, a)), i);
    }
  }

  lemma NextIsNotPrevious(n: Uint64)
    ensures n as int + 1 != Wrap(n as int - 1)
  {
  }

  // ----- the policy -----

  /** What `DefaultQueuePolicy.HandleNewHead` makes of the queue, and whether it succeeds. */
  function PolicyAfter(qs: Queues, l: Loader, maxAge: Uint64, oldTips: seq<TipSet>, newTips: seq<TipSet>)
    : (Queues, bool)
  {
    match ReorgHeight(oldTips, newTips)
    case None => (qs, false)
    case Some(height) =>
      var (q1, removedAll) := RemoveMined(qs, OfTips(l, Reversed(newTips)).0);
      if !removedAll || !OfTips(l, Reversed(newTips)).1 then (q1, false)
      else
        var (q2, requeuedAll) := RequeueAll(q1, OfTips(l, oldTips).0, height);
        if !requeuedAll || !OfTips(l, oldTips).1 then (q2, false)
        else if height >= maxAge then (Expired(q2, height - maxAge), true)
        else (q2, true)
  }

  /** As block generation splits them: BLS senders in one list, all others in the other. */
  predicate SplitByProtocol(l: Loader) {
    forall k | k in l ::
      && (forall m | m in l[k].bls :: Protocol(m.from) == PROTOCOL_BLS)
      && (forall m | m in l[k].secp :: Protocol(m.message.from) != PROTOCOL_BLS)
  }

  lemma {:induction false} NoNoncesOf(msgs: seq<Message>, a: Address)
    requires forall m | m in msgs :: m.from != a
    ensures NoncesIn(msgs, a) == []
  {
    if msgs != [] { NoNoncesOf(msgs[1..], a); }
  }

  /** What the policy sees of a sender's mined messages: all of them or, for a BLS sender, none. */
  lemma {:induction false} NoncesSeen(l: Loader, blocks: seq<Block>, a: Address)
    requires SplitByProtocol(l) && OfBlocks(l, blocks).1
    ensures NoncesOf(OfBlocks(l, blocks).0, a) ==
              if Protocol(a) == PROTOCOL_BLS then [] else NoncesIn(AllOfBlocks(l, blocks), a)
  {
    hide Unwrap, NoncesIn;
    if blocks == [] {
      NoncesOfNone(a);
      NoNoncesOf([], a);
    } else {
      NoncesSeen(l, blocks[1..], a);
      SeenOfBlock(l[blocks[0].messages], a);
      var c, rest := l[blocks[0].messages], blocks[1..];
      hide SplitByProtocol;
      UnwrapConcat(c.secp, OfBlocks(l, rest).0);
      NoncesInConcat(Unwrap(c.secp), Unwrap(OfBlocks(l, rest).0), a);
      NoncesInConcat(c.bls + Unwrap(c.secp), AllOfBlocks(l, rest), a);
    }
  }

  lemma SeenOfBlock(c: Collection, a: Address)
    requires forall m | m in c.bls :: Protocol(m.from) == PROTOCOL_BLS
    requires forall m | m in c.secp :: Protocol(m.message.from) != PROTOCOL_BLS
    ensures NoncesIn(Unwrap(c.secp), a) ==
              if Protocol(a) == PROTOCOL_BLS then [] else NoncesIn(c.bls + Unwrap(c.secp), a)
  {
    hide Unwrap, NoncesIn;
    NoncesInConcat(c.bls, Unwrap(c.secp), a);
    if Protocol(a) == PROTOCOL_BLS {
      NotAmongSecp(c, a);
    } else {
      NoNoncesOf(c.bls, a);
      assert [] + NoncesIn(Unwrap(c.secp), a) == NoncesIn(Unwrap(c.secp), a);
    }
  }

  lemma NotAmongSecp(c: Collection, a: Address)
    requires Protocol(a) == PROTOCOL_BLS && forall m | m in c.secp :: Protocol(m.message.from) != PROTOCOL_BLS
    ensures NoncesIn(Unwrap(c.secp), a) == []
  {
    forall m | m in Unwrap(c.secp) ensures m.from != a {
      var i :| 0 <= i < |c.secp| && Unwrap(c.secp)[i] == m;
      assert c.secp[i] in c.secp;
    }
    NoNoncesOf(Unwrap(c.secp), a);
  }

  /** A list once too old ones are emptied. */
  function Unexpired(q: seq<Queued>, height: Uint64, maxAge: Uint64): seq<Queued> {
    if q != [] && q[0].stamp as int + maxAge < height then [] else q
  }

  /** When the chain only grows, handling succeeds if and only if no secp message comes with a higher
      nonce than the first message left of its sender; and then every list keeps what the secp
      messages leave, unless that is too old. */
  lemma GrowthLeaves(qs: Queues, l: Loader, maxAge: Uint64, newTips: seq<TipSet>)
    requires newTips != [] && newTips[0].Defined() && OfTips(l, Reversed(newTips)).1
    ensures var mined := OfTips(l, Reversed(newTips)).0;
            PolicyAfter(qs, l, maxAge, [], newTips).1 <==>
              forall a: Address :: NeverAbove(NoncesOf(mined, a), QueueOf(qs, a))
    ensures var mined := OfTips(l, Reversed(newTips)).0;
            PolicyAfter(qs, l, maxAge, [], newTips).1 ==>
              forall a: Address ::
                QueueOf(PolicyAfter(qs, l, maxAge, [], newTips).0, a) ==
                  Unexpired(Rest(QueueOf(qs, a), NoncesOf(mined, a)), newTips[0].Height(), maxAge)
  {
    hide OfTips, RemoveMined, Rest, NeverAbove, NoncesOf;
    var mined := OfTips(l, Reversed(newTips)).0;
    RemoveMinedIff(qs, mined);
    NothingToRequeue(RemoveMined(qs, mined).0, l, newTips[0].Height());
  }

  /** Any change of chain: handling succeeds if and only if it has a height, all messages can be loaded,
      no mined secp message comes with a higher nonce than the first message left of its sender, and the
      abandoned secp messages of every sender step down from what is left of its list.  Then they are in
      front of that, stamped with the height, unless the list is too old. */
  lemma ChangeLeaves(qs: Queues, l: Loader, maxAge: Uint64, oldTips: seq<TipSet>, newTips: seq<TipSet>)
    ensures var (mined, minedAll) := OfTips(l, Reversed(newTips));
            var (restored, restoredAll) := OfTips(l, oldTips);
            PolicyAfter(qs, l, maxAge, oldTips, newTips).1 <==>
              && ReorgHeight(oldTips, newTips).Some? && minedAll && restoredAll
              && forall a: Address ::
                   && NeverAbove(NoncesOf(mined, a), QueueOf(qs, a))
                   && StepsDown(NoncesOf(restored, a), HeadNonce(Rest(QueueOf(qs, a), NoncesOf(mined, a))))
    ensures var mined, restored := OfTips(l, Reversed(newTips)).0, OfTips(l, oldTips).0;
            PolicyAfter(qs, l, maxAge, oldTips, newTips).1 ==>
              var height := ReorgHeight(oldTips, newTips).value;
              forall a: Address ::
                QueueOf(PolicyAfter(qs, l, maxAge, oldTips, newTips).0, a) ==
                  Unexpired(Restored(restored, a, height) + Rest(QueueOf(qs, a), NoncesOf(mined, a)), height, maxAge)
  {
    hide OfTips, RemoveMined, RequeueAll, Rest, NeverAbove, NoncesOf, StepsDown, Restored, ReorgHeight;
    var mined, restored := OfTips(l, Reversed(newTips)).0, OfTips(l, oldTips).0;
    RemoveMinedIff(qs, mined);
    if ReorgHeight(oldTips, newTips).Some? {
      RequeueAllIff(RemoveMined(qs, mined).0, restored, ReorgHeight(oldTips, newTips).value);
    }
  }

  // ----- what the secp lists leave, and what all lists would -----

  /** Some of the nonces, in order. */
  predicate IsSub(s: seq<Uint64>, a: seq<Uint64>) {
    s == [] || (a != [] && ((s[0] == a[0] && IsSub(s[1..], a[1..])) || IsSub(s, a[1..])))
  }

  lemma {:induction false} SubAfter(x: seq<Uint64>, s: seq<Uint64>, a: seq<Uint64>)
    requires IsSub(s, a)
    ensures IsSub(x + s, x + a) && IsSub(s, x + a)
  {
    if x == [] {
      assert x + s == s && x + a == a;
    } else {
      SubAfter(x[1..], s, a);
      assert (x + s)[1..] == x[1..] + s && (x + a)[1..] == x[1..] + a;
      assert (x + s)[0] == (x + a)[0];
    }
  }

  /** The nonces of a sender in secp lists are some of those in all lists. */
  lemma {:induction false} SecpIsSub(l: Loader, blocks: seq<Block>, a: Address)
    requires OfBlocks(l, blocks).1
    ensures IsSub(NoncesOf(OfBlocks(l, blocks).0, a), NoncesIn(AllOfBlocks(l, blocks), a))
  {
    hide Unwrap, NoncesIn, IsSub;
    if blocks == [] {
      NoncesOfNone(a);
      NothingIsSub(NoncesIn(AllOfBlocks(l, blocks), a));
    } else {
      SecpIsSub(l, blocks[1..], a);
      var c, rest := l[blocks[0].messages], blocks[1..];
      var secp, all := Unwrap(c.secp), AllOfBlocks(l, rest);
      UnwrapConcat(c.secp, OfBlocks(l, rest).0);
      NoncesInConcat(secp, Unwrap(OfBlocks(l, rest).0), a);
      assert c.bls + secp + all == c.bls + (secp + all);
      NoncesInConcat(c.bls, secp + all, a);
      NoncesInConcat(secp, all, a);
      SubAfter(NoncesIn(secp, a), NoncesOf(OfBlocks(l, rest).0, a), NoncesIn(all, a));
      SubAfter(NoncesIn(c.bls, a), NoncesOf(OfBlocks(l, blocks).0, a), NoncesIn(secp + all, a));
    }
  }

  lemma NothingIsSub(a: seq<Uint64>)
    ensures IsSub([], a)
  {
  }

  predicate IsEnd(a: seq<Queued>, b: seq<Queued>) {
    |a| <= |b| && b[|b| - |a|..] == a
  }

  function Step(l: seq<Queued>, n: Uint64): seq<Queued> {
    if l != [] && n == Nonce(l[0]) then l[1..] else l
  }

  lemma RestFirst(l: seq<Queued>, nonces: seq<Uint64>)
    requires nonces != []
    ensures Rest(l, nonces) == Rest(Step(l, nonces[0]), nonces[1..])
  {
  }

  lemma EndStep(a: seq<Queued>, b: seq<Queued>, n: Uint64)
    requires IsEnd(a, b)
    ensures IsEnd(Step(a, n), Step(b, n)) && IsEnd(Step(a, n), b)
  {
    if a != [] { assert a[1..] == b[|b| - |a| + 1..]; }
    if |a| < |b| { assert b[|b| - |a|..] == b[1..][|b| - 1 - |a|..]; }
  }

  /** More nonces leave no more. */
  lemma {:induction false} RestOfMore(a: seq<Queued>, b: seq<Queued>, s: seq<Uint64>, more: seq<Uint64>)
    requires IsEnd(a, b) && IsSub(s, more)
    ensures IsEnd(Rest(a, more), Rest(b, s))
    decreases more
  {
    hide Rest, IsEnd, Step;
    if more == [] {
      RestOfNone(a);
      RestOfNone(b);
    } else {
      RestFirst(a, more);
      EndStep(a, b, more[0]);
      if s != [] && s[0] == more[0] && IsSub(s[1..], more[1..]) {
        RestFirst(b, s);
        RestOfMore(Step(a, more[0]), Step(b, more[0]), s[1..], more[1..]);
      } else {
        RestOfMore(Step(a, more[0]), b, s, more[1..]);
      }
    }
  }

  lemma RestOfNone(l: seq<Queued>)
    ensures Rest(l, []) == l
  {
  }

  /** A message whose nonce does not come is not taken. */
  lemma {:induction false} RestStopsAt(l: seq<Queued>, r: seq<Queued>, nonces: seq<Uint64>)
    requires r != [] && IsEnd(r, l) && Nonce(r[0]) !in nonces
    ensures IsEnd(r, Rest(l, nonces))
    decreases nonces
  {
    if nonces == [] {
      RestOfNone(l);
    } else {
      RestFirst(l, nonces);
      var l' := Step(l, nonces[0]);
      assert IsEnd(r, l') by {
        if |r| < |l| { assert l[|l| - |r|..] == l[1..][|l| - 1 - |r|..]; }
        else { assert l == r; }
      }
      RestStopsAt(l', r, nonces[1..]);
    }
  }

  lemma {:induction false} RestShrinks(l: seq<Queued>, nonces: seq<Uint64>)
    ensures |Rest(l, nonces)| <= |l|
    decreases nonces
  {
    if nonces != [] {
      RestFirst(l, nonces);
      RestShrinks(Step(l, nonces[0]), nonces[1..]);
    }
  }

  /** A message whose nonce comes, where none is skipped, is taken. */
  lemma {:induction false} RestPasses(a: Address, l: seq<Queued>, r: seq<Queued>, nonces: seq<Uint64>)
    requires Contiguous(a, l) && NoWrap(l) && NeverAbove(nonces, l)
    requires r != [] && IsEnd(r, l) && Nonce(r[0]) in nonces
    ensures |Rest(l, nonces)| < |r|
    decreases nonces
  {
    RestFirst(l, nonces);
    NoncesFromHead(a, l, |l| - |r|);
    assert r[0] == l[|l| - |r|];
    var l' := Step(l, nonces[0]);
    if nonces[0] == Nonce(r[0]) {
      assert |l| == |r|;
      RestShrinks(l', nonces[1..]);
    } else {
      assert Contiguous(a, l') && NoWrap(l') by { TailKeeps(a, l); }
      assert IsEnd(r, l') by {
        if |r| < |l| { assert l[|l| - |r|..] == l[1..][|l| - 1 - |r|..]; }
        else { assert l == r; }
      }
      RestPasses(a, l', r, nonces[1..]);
    }
  }

  lemma TailKeeps(a: Address, l: seq<Queued>)
    requires Contiguous(a, l) && NoWrap(l) && l != []
    ensures Contiguous(a, l[1..]) && NoWrap(l[1..])
  {
    if |l| > 1 { NoncesFromHead(a, l, 1); }
  }

  /** What some of the nonces leave is what all of them leave if and only if it is nothing or starts
      with a message that is not mined. */
  lemma RestSameIff(a: Address, q: seq<Queued>, s: seq<Uint64>, all: seq<Uint64>)
    requires Contiguous(a, q) && NoWrap(q) && IsSub(s, all) && NeverAbove(all, q)
    ensures var r := Rest(q, s);
            if r == [] || Nonce(r[0]) !in all then Rest(q, all) == r else |Rest(q, all)| < |r|
  {
    hide Rest, IsSub, Contiguous, NeverAbove;
    assert IsEnd(q, q);
    RestOfMore(q, q, s, all);
    var r := Rest(q, s);
    NothingIsSub(s);
    RestOfMore(q, q, [], s);
    RestOfNone(q);
    if r != [] {
      if Nonce(r[0]) !in all { RestStopsAt(q, r, all); }
      else { RestPasses(a, q, r, all); }
    }
  }

  /** Mined messages are meant to leave the queue.  After such growth a list is what it was meant to
      become if and only if the secp lists leave nothing of it, or the first message they leave is not
      mined in any list, or nothing would be left of it for its age either way. */
  lemma QueueIsTrimmedIff(qs: Queues, l: Loader, maxAge: Uint64, newTips: seq<TipSet>, a: Address)
    requires newTips != [] && newTips[0].Defined() && OfTips(l, Reversed(newTips)).1
    requires forall b: Address :: NeverAbove(NoncesOf(OfTips(l, Reversed(newTips)).0, b), QueueOf(qs, b))
    requires AllContiguous(qs) && NoWrap(QueueOf(qs, a))
    requires NeverAbove(NoncesIn(AllOfTips(l, Reversed(newTips)), a), QueueOf(qs, a))
    ensures var q, all, height := QueueOf(qs, a), NoncesIn(AllOfTips(l, Reversed(newTips)), a), newTips[0].Height();
            var left := Rest(q, NoncesOf(OfTips(l, Reversed(newTips)).0, a));
            var meant := Unexpired(Rest(q, all), height, maxAge);
            QueueOf(PolicyAfter(qs, l, maxAge, [], newTips).0, a) == meant <==>
              || left == []
              || Nonce(left[0]) !in all
              || (Unexpired(left, height, maxAge) == [] && meant == [])
  {
    hide PolicyAfter, OfTips, NoncesIn, NoncesOf, Rest, NeverAbove, IsSub, AllOfTips, NoWrap;
    GrowthLeaves(qs, l, maxAge, newTips);
    TipsAreSub(l, Reversed(newTips), a);
    var q := QueueOf(qs, a);
    assert Contiguous(a, q);
    RestSameIff(a, q, NoncesOf(OfTips(l, Reversed(newTips)).0, a), NoncesIn(AllOfTips(l, Reversed(newTips)), a));
  }

  lemma TipsAreSub(l: Loader, tips: seq<TipSet>, a: Address)
    requires OfTips(l, tips).1
    ensures IsSub(NoncesOf(OfTips(l, tips).0, a), NoncesIn(AllOfTips(l, tips), a))
  {
    hide NoncesOf, NoncesIn, IsSub;
    SecpIsSub(l, BlocksOf(tips), a);
  }

  /** Where blocks are split as they are generated, the list of a BLS sender is left as it is, unless it
      is too old. */
  lemma BlsListIsKept(qs: Queues, l: Loader, maxAge: Uint64, newTips: seq<TipSet>, a: Address)
    requires newTips != [] && newTips[0].Defined() && OfTips(l, Reversed(newTips)).1
    requires forall b: Address :: NeverAbove(NoncesOf(OfTips(l, Reversed(newTips)).0, b), QueueOf(qs, b))
    requires SplitByProtocol(l) && Protocol(a) == PROTOCOL_BLS
    ensures QueueOf(PolicyAfter(qs, l, maxAge, [], newTips).0, a) ==
              Unexpired(QueueOf(qs, a), newTips[0].Height(), maxAge)
  {
    hide PolicyAfter, OfTips, NoncesOf, Rest, NeverAbove, SplitByProtocol;
    GrowthLeaves(qs, l, maxAge, newTips);
    SeenOfTips(l, Reversed(newTips), a);
    RestOfNone(QueueOf(qs, a));
  }

  lemma SeenOfTips(l: Loader, tips: seq<TipSet>, a: Address)
    requires SplitByProtocol(l) && OfTips(l, tips).1
    ensures NoncesOf(OfTips(l, tips).0, a) ==
              if Protocol(a) == PROTOCOL_BLS then [] else NoncesIn(AllOfTips(l, tips), a)
  {
    hide SplitByProtocol, NoncesOf, NoncesIn;
    NoncesSeen(l, BlocksOf(tips), a);
  }

  /** For one, a BLS message is still queued when the only block of a new tipset has mined it. */
  lemma MinedBlsMessageIsQueued()
    ensures exists qs, l, ts, m: SignedMessage ::
              Protocol(m.message.from) == PROTOCOL_BLS && MinedAndQueued(qs, l, ts, m)
  {
    hide Reversed;
    var from: Address := [PROTOCOL_BLS, 1];
    var m := SignedMessage(Message([0, 102], from, 0, 0, 0, [], 1, 10), []);
    var b := Block([1], [], [], [], 0, 1, [2]);
    var ts := TipSet([b], [[1]]);
    var l: Loader := map[[2] := Collection([], [m.message])];
    var qs: Queues := map[from := [Queued(m, 0)]];
    OneTip(ts);
    assert [ts][1..] == [] && [b][1..] == [];
    assert BlocksOf([ts]) == [b] + BlocksOf([]) == [b];
    assert OfBlocks(l, []) == ([], true);
    assert OfBlocks(l, [b]) == (l[[2]].secp + [], true);
    assert l[[2]].secp + [] == [];
    assert OfTips(l, Reversed([ts])).0 == [] && OfTips(l, Reversed([ts])).1;
    assert RemoveMined(qs, []) == (qs, true);
    NothingToRequeue(qs, l, 1);
    assert b in [ts][0].blocks && m.message in l[b.messages].bls;
    assert MinedBls(l, m, [ts]);
    assert MinedAndQueued(qs, l, ts, m);
  }

  lemma OneTip(ts: TipSet)
    ensures Reversed([ts]) == [ts]
  {
  }

  /** At the head of a list and mined in a new tipset, and there still when that has been handled. */
  ghost predicate MinedAndQueued(qs: Queues, l: Loader, ts: TipSet, m: SignedMessage) {
    var q := QueueOf(PolicyAfter(qs, l, 10, [], [ts]).0, m.message.from);
    MinedIn(l, m, [ts]) && q != [] && q[0].msg == m
  }

  lemma NothingToRequeue(qs: Queues, l: Loader, stamp: Uint64)
    ensures OfTips(l, []).1 && RequeueAll(qs, OfTips(l, []).0, stamp) == (qs, true)
  {
  }

  method RemoveMessages(queue: Queue, mined: seq<SignedMessage>) returns (ok: bool)
    requires queue.Valid()
    modifies queue
    ensures queue.Valid() && (queue.queues, ok) == RemoveMined(old(queue.queues), mined)
  {
    for i := 0 to |mined|
      invariant queue.Valid() && RemoveMined(queue.queues, mined[i..]) == RemoveMined(old(queue.queues), mined)
    {
      assert mined[i..][1..] == mined[i + 1..];
      var removed := queue.RemoveNextMessage(mined[i].message.from, mined[i].message.callSeqNum);
      if removed.TooHigh? { return false; }
    }
    ok := true;
  }

  method RequeueMessages(queue: Queue, msgs: seq<SignedMessage>, stamp: Uint64) returns (ok: bool)
    requires queue.Valid()
    modifies queue
    ensures queue.Valid() && (queue.queues, ok) == RequeueAll(old(queue.queues), msgs, stamp)
  {
    for i := 0 to |msgs|
      invariant queue.Valid()
      invariant RequeueAll(queue.queues, msgs[i..], stamp) == RequeueAll(old(queue.queues), msgs, stamp)
    {
      assert msgs[i..][1..] == msgs[i + 1..];
      var requeued := queue.RequeueMessage(msgs[i], stamp);
      if !requeued { return false; }
    }
    ok := true;
  }

  /** `DefaultQueuePolicy.HandleNewHead`.  It leaves the list of new tipsets reversed. */
  method HandleNewHead(queue: Queue, l: Loader, maxAge: Uint64, oldTips: seq<TipSet>, newTips: array<TipSet>)
    returns (ok: bool)
    requires queue.Valid()
    modifies queue, newTips
    ensures queue.Valid() && (queue.queues, ok) == PolicyAfter(old(queue.queues), l, maxAge, oldTips, old(newTips[..]))
    ensures newTips[..] == if ReorgHeight(oldTips, old(newTips[..])).None? then old(newTips[..])
                           else Reversed(old(newTips[..]))
  {
    hide AllContiguous, OfTips, RemoveMined, RequeueAll, Expired, Reversed;
    var chainHeight := ReorgHeight(oldTips, newTips[..]);
    if chainHeight.None? { return false; }
    Reverse(newTips);
    var mined, minedAll := LoadMessages(l, newTips[..]);
    ok := RemoveMessages(queue, mined);
    if !ok || !minedAll { return false; }
    var restored, restoredAll := LoadMessages(l, oldTips);
    ok := RequeueMessages(queue, restored, chainHeight.value);
    if !ok || !restoredAll { return false; }
    if chainHeight.value >= maxAge {
      var _ := queue.Expire(chainHeight.value - maxAge);
    }
  }
}
