/** Choosing the messages of a new block, and what their processing by others comes to. */
module BlockGeneration {
  import opened Primitives
  import opened StateTree
  import opened Messages
  import opened MessageSemantics
  import opened MessageTheorems
  import opened RunTheorems
  import opened CachedState
  import opened Processor
  import opened MiningQueue
  import GoSort
  import MessagePool

  predicate IsBls(m: SignedMessage) {
    Protocol(m.message.from) == PROTOCOL_BLS
  }

  /** Messages with (`bls`) or without a BLS sender, in order. */
  function Filter(msgs: seq<SignedMessage>, bls: bool): seq<SignedMessage> {
    if msgs == [] then []
    else (if IsBls(msgs[0]) == bls then [msgs[0]] else []) + Filter(msgs[1..], bls)
  }

  function Ordered(msgs: seq<SignedMessage>): seq<SignedMessage> {
    Filter(msgs, true) + Filter(msgs, false)
  }

  lemma {:induction false} FilterConcat(a: seq<SignedMessage>, b: seq<SignedMessage>, bls: bool)
    ensures Filter(a + b, bls) == Filter(a, bls) + Filter(b, bls)
  {
    hide Filter;
    if a == [] {
      assert a + b == b;
      FilterNothing(bls);
    } else {
      var first := if IsBls(a[0]) == bls then [a[0]] else [];
      FilterConcat(a[1..], b, bls);
      FilterFirst(a, bls);
      FilterFirst(a + b, bls);
      assert (a + b)[1..] == a[1..] + b;
      assert first + (Filter(a[1..], bls) + Filter(b, bls)) == first + Filter(a[1..], bls) + Filter(b, bls);
    }
  }

  lemma FilterNothing(bls: bool)
    ensures Filter([], bls) == []
  {
  }

  lemma FilterFirst(msgs: seq<SignedMessage>, bls: bool)
    requires msgs != []
    ensures Filter(msgs, bls) == (if IsBls(msgs[0]) == bls then [msgs[0]] else []) + Filter(msgs[1..], bls)
  {
  }

  lemma FilterSnoc(msgs: seq<SignedMessage>, i: nat, bls: bool)
    requires i < |msgs|
    ensures Filter(msgs[..i + 1], bls) == Filter(msgs[..i], bls) + if IsBls(msgs[i]) == bls then [msgs[i]] else []
  {
    assert msgs[..i + 1] == msgs[..i] + [msgs[i]];
    FilterConcat(msgs[..i], [msgs[i]], bls);
    assert [msgs[i]][1..] == [];
    assert Filter([msgs[i]], bls) == if IsBls(msgs[i]) == bls then [msgs[i]] else [];
  }

  lemma {:induction false} FilterFacts(msgs: seq<SignedMessage>, bls: bool)
    ensures forall m | m in Filter(msgs, bls) :: IsBls(m) == bls
    ensures multiset(Filter(msgs, true)) + multiset(Filter(msgs, false)) == multiset(msgs)
  {
    if msgs != [] {
      FilterFacts(msgs[1..], bls);
      assert msgs == [msgs[0]] + msgs[1..];
    }
  }

  /** `orderMessageCandidates`. */
  method OrderMessageCandidates(messages: seq<SignedMessage>) returns (r: seq<SignedMessage>)
    ensures r == Ordered(messages)
  {
    var blsMessages, secpMessages := [], [];
    for i := 0 to |messages|
      invariant blsMessages == Filter(messages[..i], true)
      invariant secpMessages == Filter(messages[..i], false)
    {
      FilterSnoc(messages, i, true);
      FilterSnoc(messages, i, false);
      if IsBls(messages[i]) {
        blsMessages := blsMessages + [messages[i]];
      } else {
        secpMessages := secpMessages + [messages[i]];
      }
    }
    assert messages[..|messages|] == messages;
    r := blsMessages + secpMessages;
  }

  lemma {:induction false} BySenderConcat(a: seq<SignedMessage>, b: seq<SignedMessage>, s: Address)
    ensures BySender(a + b, s) == BySender(a, s) + BySender(b, s)
  {
    if b == [] {
      assert a + b == a;
    } else {
      var init := b[..|b| - 1];
      BySenderConcat(a, init, s);
      assert (a + b)[..|a + b| - 1] == a + init;
    }
  }

  lemma {:induction false} FilterBySender(msgs: seq<SignedMessage>, s: Address, bls: bool)
    ensures BySender(Filter(msgs, bls), s) == if (Protocol(s) == PROTOCOL_BLS) == bls then BySender(msgs, s) else []
  {
    if msgs != [] {
      var m, rest := msgs[0], msgs[1..];
      FilterBySender(rest, s, bls);
      assert msgs == [m] + rest;
      BySenderConcat([m], rest, s);
      BySenderOfOne(m, s);
      if IsBls(m) == bls {
        BySenderConcat([m], Filter(rest, bls), s);
      } else {
        assert Filter(msgs, bls) == Filter(rest, bls);
      }
    }
  }

  lemma BySenderOfOne(m: SignedMessage, s: Address)
    ensures BySender([m], s) == if m.message.from == s then [m] else []
  {
    assert [m][..0] == [];
  }

  /** Putting BLS messages first keeps the messages of every sender in their order. */
  lemma OrderKeepsEachSender(msgs: seq<SignedMessage>, s: Address)
    ensures BySender(Ordered(msgs), s) == BySender(msgs, s)
  {
    BySenderConcat(Filter(msgs, true), Filter(msgs, false), s);
    FilterBySender(msgs, s, true);
    FilterBySender(msgs, s, false);
  }

  /** Candidates drawn from distinct pending messages are distinct. */
  lemma CandidatesAreDistinct(pending: seq<SignedMessage>, drained: seq<SignedMessage>)
    requires Distinct(multiset(pending)) && IsMerge(multiset(pending), drained)
    ensures NoDuplicates(Unwrap(Ordered(drained)))
  {
    hide Takes;
    MergeIsPermutation(multiset(pending), drained);
    FilterFacts(drained, true);
    var c := Ordered(drained);
    assert multiset(c) == multiset(pending);
    forall i, j | 0 <= i < j < |c| ensures c[i].message != c[j].message {
      assert c[i] in multiset(c) && c[j] in multiset(c);
      if c[i] == c[j] { GoSort.TwiceCounts(c, i, j); }
    }
  }

  // ----- accepted messages -----

  lemma {:induction false} AcceptedConcat(a: seq<SignedMessage>, ra: seq<MessageResult>, b: seq<SignedMessage>,
                                          rb: seq<MessageResult>)
    requires |a| == |ra| && |b| == |rb|
    ensures Accepted(a + b, ra + rb) == Accepted(a, ra) + Accepted(b, rb)
  {
    hide Accepted;
    if a == [] {
      assert a + b == b && ra + rb == rb;
      AcceptedNone();
    } else {
      AcceptedConcat(a[1..], ra[1..], b, rb);
      assert (a + b)[1..] == a[1..] + b && (ra + rb)[1..] == ra[1..] + rb;
      AcceptedFirst(a, ra);
      AcceptedFirst(a + b, ra + rb);
      var first, rest := if ra[0].Success? then [a[0]] else [], Accepted(a[1..], ra[1..]);
      assert first + (rest + Accepted(b, rb)) == first + rest + Accepted(b, rb);
    }
  }

  lemma AcceptedNone()
    ensures Accepted<SignedMessage>([], []) == []
  {
  }

  lemma AcceptedFirst(msgs: seq<SignedMessage>, results: seq<MessageResult>)
    requires |msgs| == |results| && msgs != []
    ensures Accepted(msgs, results) ==
              (if results[0].Success? then [msgs[0]] else []) + Accepted(msgs[1..], results[1..])
  {
  }

  lemma {:induction false} AcceptedUnwrapped(msgs: seq<SignedMessage>, results: seq<MessageResult>)
    requires |msgs| == |results|
    ensures Unwrap(Accepted(msgs, results)) == Accepted(Unwrap(msgs), results)
  {
    if msgs != [] {
      AcceptedUnwrapped(msgs[1..], results[1..]);
      assert Unwrap(msgs)[1..] == Unwrap(msgs[1..]);
      UnwrapConcat([msgs[0]], Accepted(msgs[1..], results[1..]));
      assert Unwrap([msgs[0]]) == [Unwrap(msgs)[0]];
    }
  }

  lemma {:induction false} FilterOfUniform(msgs: seq<SignedMessage>, bls: bool)
    requires forall m | m in msgs :: IsBls(m) == bls
    ensures Filter(msgs, bls) == msgs && Filter(msgs, !bls) == []
  {
    if msgs != [] {
      FilterOfUniform(msgs[1..], bls);
      assert msgs == [msgs[0]] + msgs[1..];
    }
  }

  /** Since BLS candidates come first, splitting the accepted messages by protocol and putting
      the two lists together again gives them back in the order they were run. */
  lemma SplitAndCombine(drained: seq<SignedMessage>, results: seq<MessageResult>)
    requires |results| == |Ordered(drained)|
    ensures var taken := Accepted(Ordered(drained), results);
            Filter(taken, true) + Filter(taken, false) == taken
  {
    hide Filter, Accepted;
    var a, b := Filter(drained, true), Filter(drained, false);
    var ra, rb := results[..|a|], results[|a|..];
    assert results == ra + rb;
    AcceptedConcat(a, ra, b, rb);
    FilterFacts(drained, true);
    FilterFacts(drained, false);
    AcceptedIsPart(a, ra);
    AcceptedIsPart(b, rb);
    FilterOfUniform(Accepted(a, ra), true);
    FilterOfUniform(Accepted(b, rb), false);
    FilterConcat(Accepted(a, ra), Accepted(b, rb), true);
    FilterConcat(Accepted(a, ra), Accepted(b, rb), false);
  }

  datatype Selection = Selection(bls: seq<SignedMessage>, secp: seq<SignedMessage>, removed: seq<SignedMessage>)

  /** The candidates with a permanent failure, which leave the pool. */
  function Hopeless(msgs: seq<SignedMessage>, results: seq<MessageResult>): seq<SignedMessage>
    requires |msgs| == |results|
  {
    if msgs == [] then []
    else
      Hopeless(msgs[..|msgs| - 1], results[..|msgs| - 1]) +
        var r := results[|msgs| - 1]; if r.Failure? && r.permanent then [msgs[|msgs| - 1]] else []
  }

  /** The loop of `Generate` that aligns results with candidates. */
  method Align(candidates: seq<SignedMessage>, results: seq<MessageResult>) returns (s: Selection)
    requires |candidates| == |results|
    ensures s.bls == Filter(Accepted(candidates, results), true)
    ensures s.secp == Filter(Accepted(candidates, results), false)
    ensures s.removed == Hopeless(candidates, results)
  {
    var bls, secp, removed := [], [], [];
    for i := 0 to |results|
      invariant bls == Filter(Accepted(candidates[..i], results[..i]), true)
      invariant secp == Filter(Accepted(candidates[..i], results[..i]), false)
      invariant removed == Hopeless(candidates[..i], results[..i])
    {
      var msg, r := candidates[i], results[i];
      AcceptedSnoc(candidates, results, i, true);
      AcceptedSnoc(candidates, results, i, false);
      assert candidates[..i + 1][..i] == candidates[..i] && results[..i + 1][..i] == results[..i];
      if r.Success? {
        if IsBls(msg) {
          bls := bls + [msg];
        } else {
          secp := secp + [msg];
        }
      } else if r.permanent {
        removed := removed + [msg];
      }
    }
    assert candidates[..|results|] == candidates && results[..|results|] == results;
    s := Selection(bls, secp, removed);
  }

  lemma AcceptedSnoc(msgs: seq<SignedMessage>, results: seq<MessageResult>, i: nat, bls: bool)
    requires |msgs| == |results| && i < |msgs|
    ensures Filter(Accepted(msgs[..i + 1], results[..i + 1]), bls) ==
              Filter(Accepted(msgs[..i], results[..i]), bls) +
              if results[i].Success? && IsBls(msgs[i]) == bls then [msgs[i]] else []
  {
    assert msgs[..i + 1] == msgs[..i] + [msgs[i]] && results[..i + 1] == results[..i] + [results[i]];
    AcceptedConcat(msgs[..i], results[..i], [msgs[i]], [results[i]]);
    var one := Accepted([msgs[i]], [results[i]]);
    assert one == if results[i].Success? then [msgs[i]] else [] by {
      assert [msgs[i]][1..] == [] && [results[i]][1..] == [];
    }
    FilterConcat(Accepted(msgs[..i], results[..i]), one, bls);
    if one != [] { assert one[1..] == []; }
    assert Filter(one, bls) == if results[i].Success? && IsBls(msgs[i]) == bls then [msgs[i]] else [];
  }

  // ----- which candidates are taken and which are given up -----

  /** The elements in the chosen places, in order. */
  function Picked<T>(s: seq<T>, chosen: seq<bool>): seq<T>
    requires |s| == |chosen|
  {
    if s == [] then [] else (if chosen[0] then [s[0]] else []) + Picked(s[1..], chosen[1..])
  }

  lemma {:induction false} PickedIff<T>(s: seq<T>, chosen: seq<bool>, x: T)
    requires |s| == |chosen|
    ensures x in Picked(s, chosen) <==> exists k | 0 <= k < |s| :: s[k] == x && chosen[k]
  {
    if s != [] {
      PickedIff(s[1..], chosen[1..], x);
      forall k | 0 <= k < |s| - 1 ensures s[1..][k] == s[k + 1] && chosen[1..][k] == chosen[k + 1] { }
      if k :| 0 <= k < |s| && s[k] == x && chosen[k] {
        if k > 0 { assert s[1..][k - 1] == x && chosen[1..][k - 1]; }
      }
    }
  }

  lemma {:induction false} PickedSnoc<T>(s: seq<T>, chosen: seq<bool>)
    requires |s| == |chosen| && s != []
    ensures var n := |s| - 1;
            Picked(s, chosen) == Picked(s[..n], chosen[..n]) + if chosen[n] then [s[n]] else []
  {
    hide Picked;
    var n := |s| - 1;
    PickedFirst(s, chosen);
    PickedNone<T>();
    if n > 0 {
      PickedSnoc(s[1..], chosen[1..]);
      PickedFirst(s[..n], chosen[..n]);
      assert s[1..][..n - 1] == s[..n][1..] && chosen[1..][..n - 1] == chosen[..n][1..];
      var first, rest := if chosen[0] then [s[0]] else [], Picked(s[..n][1..], chosen[..n][1..]);
      var last := if chosen[n] then [s[n]] else [];
      assert first + (rest + last) == first + rest + last;
    } else {
      assert s[1..] == [] && chosen[1..] == [] && s[..0] == [] && chosen[..0] == [];
    }
  }

  lemma PickedFirst<T>(s: seq<T>, chosen: seq<bool>)
    requires |s| == |chosen| && s != []
    ensures Picked(s, chosen) == (if chosen[0] then [s[0]] else []) + Picked(s[1..], chosen[1..])
  {
  }

  /** What becomes of each candidate when it is its turn. */
  function GivenUp(actors: Actors, t: Tree, msgs: seq<Message>, owner: Address): (r: seq<bool>)
    requires BlockReward(t, owner).Some?
    ensures |r| == |msgs|
  {
    seq(|msgs|, k requires 0 <= k < |msgs| =>
      var (tk, gk) := BlockBefore(actors, t, msgs, owner, k); ForGood(tk, gk, msgs[k]))
  }

  function Taken(actors: Actors, t: Tree, msgs: seq<Message>, owner: Address): (r: seq<bool>)
    requires BlockReward(t, owner).Some?
    ensures |r| == |msgs|
  {
    seq(|msgs|, k requires 0 <= k < |msgs| =>
      var (tk, gk) := BlockBefore(actors, t, msgs, owner, k); !ForGood(tk, gk, msgs[k]) && !ForNow(tk, gk, msgs[k]))
  }

  lemma {:induction false} HopelessArePicked(msgs: seq<SignedMessage>, results: seq<MessageResult>, chosen: seq<bool>)
    requires |msgs| == |results| == |chosen|
    requires forall k | 0 <= k < |msgs| :: chosen[k] == (results[k].Failure? && results[k].permanent)
    ensures Hopeless(msgs, results) == Picked(msgs, chosen)
  {
    hide Picked;
    if msgs == [] {
      PickedNone<SignedMessage>();
    } else {
      var n := |msgs| - 1;
      HopelessArePicked(msgs[..n], results[..n], chosen[..n]);
      PickedSnoc(msgs, chosen);
    }
  }

  lemma PickedNone<T>()
    ensures Picked<T>([], []) == []
  {
  }

  lemma {:induction false} AcceptedArePicked(msgs: seq<SignedMessage>, results: seq<MessageResult>, chosen: seq<bool>)
    requires |msgs| == |results| == |chosen|
    requires forall k | 0 <= k < |msgs| :: chosen[k] == results[k].Success?
    ensures Accepted(msgs, results) == Picked(msgs, chosen)
  {
    if msgs != [] { AcceptedArePicked(msgs[1..], results[1..], chosen[1..]); }
  }

  /** A block takes exactly the candidates that are to be rejected neither for good nor for now when it
      is their turn, and the pool is to lose exactly those that are to be rejected for good then. */
  lemma SelectionIs(actors: Actors, t: Tree, candidates: seq<SignedMessage>, owner: Address)
    requires Honest(actors) && KeepsNegativeTransferInside(actors)
    requires ApplyMessagesAndPayRewards(actors, t, Unwrap(candidates), owner).RunOk?
    ensures BlockReward(t, owner).Some?
    ensures var results := ApplyMessagesAndPayRewards(actors, t, Unwrap(candidates), owner).results;
            && Accepted(candidates, results) == Picked(candidates, Taken(actors, t, Unwrap(candidates), owner))
            && Hopeless(candidates, results) == Picked(candidates, GivenUp(actors, t, Unwrap(candidates), owner))
  {
    hide Honest, KeepsNegativeTransferInside, ApplyAll, BlockReward, BlockBefore, ForGood, ForNow, Picked, Hopeless;
    hide Accepted;
    var msgs := Unwrap(candidates);
    var results := ApplyMessagesAndPayRewards(actors, t, msgs, owner).results;
    forall k | 0 <= k < |msgs|
      ensures Taken(actors, t, msgs, owner)[k] == results[k].Success?
      ensures GivenUp(actors, t, msgs, owner)[k] == (results[k].Failure? && results[k].permanent)
    {
      BlockResultsIff(actors, t, msgs, owner, k);
    }
    AcceptedArePicked(candidates, results, Taken(actors, t, msgs, owner));
    HopelessArePicked(candidates, results, GivenUp(actors, t, msgs, owner));
  }

  /** The message part of `Generate`: drain the pool by priority, run the candidates on the state
      of the base tipset, and keep those that were applied.  None if the run faults. */
  method SelectMessages(actors: Actors, st: StateStore, pending: seq<SignedMessage>, owner: Address)
    returns (r: Option<Selection>, ghost drained: seq<SignedMessage>)
    requires NeverDeletes(actors)
    modifies st
    ensures IsMerge(multiset(pending), drained)
    ensures match ApplyMessagesAndPayRewards(actors, old(st.actors), Unwrap(Ordered(drained)), owner)
            case RunFault(t) => r.None?
            case RunOk(t, _, results) =>
              && r.Some? && st.actors == t
              && r.value.bls == Filter(Accepted(Ordered(drained), results), true)
              && r.value.secp == Filter(Accepted(Ordered(drained), results), false)
              && r.value.removed == Hopeless(Ordered(drained), results)
    ensures Honest(actors) && KeepsNegativeTransferInside(actors) && r.Some? ==>
              var t, candidates := old(st.actors), Ordered(drained);
              && BlockReward(t, owner).Some?
              && r.value.bls == Filter(Picked(candidates, Taken(actors, t, Unwrap(candidates), owner)), true)
              && r.value.secp == Filter(Picked(candidates, Taken(actors, t, Unwrap(candidates), owner)), false)
              && r.value.removed == Picked(candidates, GivenUp(actors, t, Unwrap(candidates), owner))
  {
    hide ApplyMessagesAndPayRewards, Honest, KeepsNegativeTransferInside, BlockReward, Taken, GivenUp, Picked;
    var mq := new MessageQueue(pending);
    var all := mq.Drain();
    drained := all;
    var candidates := OrderMessageCandidates(all);
    var results := ApplyBlock(actors, st, Unwrap(candidates), owner);
    if results.None? { return None, drained; }
    var s := Align(candidates, results.value);
    r := Some(s);
    if Honest(actors) && KeepsNegativeTransferInside(actors) {
      SelectionIs(actors, old(st.actors), candidates, owner);
    }
  }

  /** `combineMessages`. */
  method CombineMessages(bls: seq<seq<Message>>, secp: seq<seq<Message>>) returns (r: seq<seq<Message>>)
    requires |bls| == |secp|
    ensures |r| == |bls| && forall i | 0 <= i < |r| :: r[i] == bls[i] + secp[i]
  {
    r := [];
    for i := 0 to |bls|
      invariant |r| == i && forall k | 0 <= k < i :: r[k] == bls[k] + secp[k]
    {
      r := r + [bls[i] + secp[i]];
    }
  }

  /** Replay agreement, for every pool of distinct messages: a block generated from it, when it
      is processed by the tipset code on the same state, leads to the state its miner computed
      and to one receipt for each message in it. */
  lemma GeneratedBlockReplays(actors: Actors, owners: OwnerLookup, t: Tree, miner: Address, owner: Address,
                              pending: seq<SignedMessage>, drained: seq<SignedMessage>)
    requires KeepsNegativeTransferInside(actors)
    requires owners(t, miner) == Some(owner)
    requires Distinct(multiset(pending)) && IsMerge(multiset(pending), drained)
    requires ApplyMessagesAndPayRewards(actors, t, Unwrap(Ordered(drained)), owner).RunOk?
    ensures var r := ApplyMessagesAndPayRewards(actors, t, Unwrap(Ordered(drained)), owner);
            var taken := Accepted(Ordered(drained), r.results);
            var blockMessages := Unwrap(Filter(taken, true)) + Unwrap(Filter(taken, false));
            && ProcessTipSet(actors, owners, t, [miner], [blockMessages]) == TipSetOk(r.tree, Successes(r.results))
            && |Successes(r.results)| == |blockMessages|
  {
    hide ApplyMessagesAndPayRewards, ProcessTipSet, IsMerge, Distinct;
    var r := ApplyMessagesAndPayRewards(actors, t, Unwrap(Ordered(drained)), owner);
    var taken := Accepted(Ordered(drained), r.results);
    CandidatesAreDistinct(pending, drained);
    MinedBlockReplays(actors, owners, t, miner, owner, Unwrap(Ordered(drained)));
    SplitAndCombine(drained, r.results);
    UnwrapConcat(Filter(taken, true), Filter(taken, false));
    AcceptedUnwrapped(Ordered(drained), r.results);
    AcceptedCount(Unwrap(Ordered(drained)), r.results);
  }

  /** What a pool holds is distinct. */
  lemma PoolIsDistinct(p: MessagePool.Pending, maxSize: nat)
    requires MessagePool.PoolOk(p, maxSize)
    ensures Distinct(multiset(p.Keys))
  {
    forall a, b | a in multiset(p.Keys) && b in multiset(p.Keys) && a != b
      ensures a.message.from != b.message.from || a.message.callSeqNum != b.message.callSeqNum
    {
      assert a in p && b in p && MessagePool.Pair(a) != MessagePool.Pair(b);
    }
  }

  /** So it holds for a block generated from whatever a run of additions and removals has left in the
      pool. */
  lemma PoolBlockReplays(actors: Actors, owners: OwnerLookup, t: Tree, miner: Address, owner: Address, maxSize: nat,
                         ops: seq<MessagePool.Op>, pending: seq<SignedMessage>, drained: seq<SignedMessage>)
    requires KeepsNegativeTransferInside(actors)
    requires owners(t, miner) == Some(owner)
    requires multiset(pending) == multiset(MessagePool.Run(maxSize, ops).Keys) && IsMerge(multiset(pending), drained)
    requires ApplyMessagesAndPayRewards(actors, t, Unwrap(Ordered(drained)), owner).RunOk?
    ensures var r := ApplyMessagesAndPayRewards(actors, t, Unwrap(Ordered(drained)), owner);
            var taken := Accepted(Ordered(drained), r.results);
            var blockMessages := Unwrap(Filter(taken, true)) + Unwrap(Filter(taken, false));
            ProcessTipSet(actors, owners, t, [miner], [blockMessages]) == TipSetOk(r.tree, Successes(r.results))
  {
    hide ApplyMessagesAndPayRewards, ProcessTipSet, IsMerge, Distinct, MessagePool.Run, MessagePool.PoolOk;
    MessagePool.EveryRunKeepsPool(maxSize, ops);
    PoolIsDistinct(MessagePool.Run(maxSize, ops), maxSize);
    GeneratedBlockReplays(actors, owners, t, miner, owner, pending, drained);
  }

  lemma {:induction false} AcceptedCount(msgs: seq<Message>, results: seq<MessageResult>)
    requires |msgs| == |results|
    ensures |Accepted(msgs, results)| == |Successes(results)|
  {
    if msgs != [] { AcceptedCount(msgs[1..], results[1..]); }
  }
}
