/** Properties of whole runs: blocks and tipsets. */
module RunTheorems {
  import opened Primitives
  import opened StateTree
  import opened Messages
  import opened MessageSemantics
  import opened MessageTheorems

  // ----- conservation -----

  lemma {:induction false} ApplyAllGrows(actors: Actors, t: Tree, gas: Gas, msgs: seq<Message>, owner: Address)
    requires Honest(actors)
    ensures var r := ApplyAll(actors, t, gas, msgs, owner);
            r.RunOk? ==> Grows(t, r.tree)
    decreases |msgs|
  {
    if msgs != [] {
      var o := ApplyMessage(actors, t, gas, msgs[0], owner);
      if !o.outcome.Fault? {
        ApplyMessageFacts(actors, t, gas, msgs[0], owner);
        ApplyAllGrows(actors, o.tree, o.gas, msgs[1..], owner);
        var r := ApplyAll(actors, o.tree, o.gas, msgs[1..], owner);
        if r.RunOk? { GrowsTransitive(t, o.tree, r.tree); }
      }
    }
  }

  /** Block reward, messages and gas rewards of a block only move money around. */
  lemma BlockConserves(actors: Actors, t: Tree, msgs: seq<Message>, owner: Address)
    requires Honest(actors)
    ensures var r := ApplyMessagesAndPayRewards(actors, t, msgs, owner);
            r.RunOk? ==> Grows(t, r.tree)
  {
    RewardTransferFacts(t, NETWORK_ADDRESS, owner, BLOCK_REWARD);
    if BlockReward(t, owner).Some? {
      var t1 := BlockReward(t, owner).value;
      ApplyAllGrows(actors, t1, NO_GAS, msgs, owner);
      var r := ApplyAll(actors, t1, NO_GAS, msgs, owner);
      if r.RunOk? { GrowsTransitive(t, t1, r.tree); }
    }
  }

  lemma {:induction false} BlocksConserve(actors: Actors, owners: OwnerLookup, t: Tree, miners: seq<Address>,
                                          msgs: seq<seq<Message>>)
    requires Honest(actors) && |miners| == |msgs|
    ensures var r := ProcessBlocks(actors, owners, t, miners, msgs);
            r.TipSetOk? ==> Grows(t, r.tree)
    decreases |miners|
  {
    if miners != [] && owners(t, miners[0]).Some? {
      var owner := owners(t, miners[0]).value;
      BlockConserves(actors, t, msgs[0], owner);
      var b := ApplyMessagesAndPayRewards(actors, t, msgs[0], owner);
      if b.RunOk? {
        BlocksConserve(actors, owners, b.tree, miners[1..], msgs[1..]);
        var r := ProcessBlocks(actors, owners, b.tree, miners[1..], msgs[1..]);
        if r.TipSetOk? { GrowsTransitive(t, b.tree, r.tree); }
      }
    }
  }

  /** Conservation: a fault-free tipset leaves the total of all balances unchanged. */
  lemma TipSetConserves(actors: Actors, owners: OwnerLookup, t: Tree, miners: seq<Address>, msgs: seq<seq<Message>>)
    requires Honest(actors) && |miners| == |msgs|
    ensures var r := ProcessTipSet(actors, owners, t, miners, msgs);
            r.TipSetOk? ==> Total(r.tree) == Total(t)
  {
    BlocksConserve(actors, owners, t, miners, DedupAll(msgs, {}));
  }

  // ----- gas rewards -----

  /** Where a run over `msgs` stands before message `k`. */
  function Before(actors: Actors, t: Tree, gas: Gas, msgs: seq<Message>, owner: Address, k: nat): (Tree, Gas)
    requires k <= |msgs|
    decreases k
  {
    if k == 0 then (t, gas)
    else
      var (t1, g1) := Before(actors, t, gas, msgs, owner, k - 1);
      var o := ApplyMessage(actors, t1, g1, msgs[k - 1], owner);
      (o.tree, o.gas)
  }

  /** Once the block reward is paid, no message of the block can fault for lack of gas money:
      every gas reward in the run succeeds. */
  lemma {:induction false} GasRewardsNeverFault(actors: Actors, t: Tree, gas: Gas, msgs: seq<Message>, owner: Address,
                                            k: nat)
    requires Honest(actors) && OwnerReady(t, owner)
    requires k < |msgs|
    requires forall i | 0 <= i < k ::
               var (ti, gi) := Before(actors, t, gas, msgs, owner, i);
               !ApplyMessage(actors, ti, gi, msgs[i], owner).outcome.Fault?
    ensures var (tk, gk) := Before(actors, t, gas, msgs, owner, k);
            var a := Attempt(actors, tk, gk, msgs[k]);
            a.Attempted? && a.receipt.gasAttoFIL > 0 ==>
              GasReward(Kept(tk, a), owner, msgs[k], a.receipt.gasAttoFIL).Some?
  {
    OwnerStaysReady(actors, t, gas, msgs, owner, k);
    var (tk, gk) := Before(actors, t, gas, msgs, owner, k);
    if Attempt(actors, tk, gk, msgs[k]).Attempted? {
      GasRewardSucceeds(actors, tk, gk, msgs[k], owner);
    }
  }

  lemma {:induction false} OwnerStaysReady(actors: Actors, t: Tree, gas: Gas, msgs: seq<Message>, owner: Address,
                                           k: nat)
    requires Honest(actors) && OwnerReady(t, owner)
    requires k <= |msgs|
    requires forall i | 0 <= i < k ::
               var (ti, gi) := Before(actors, t, gas, msgs, owner, i);
               !ApplyMessage(actors, ti, gi, msgs[i], owner).outcome.Fault?
    ensures OwnerReady(Before(actors, t, gas, msgs, owner, k).0, owner)
    decreases k
  {
    hide ApplyMessage;
    if k > 0 {
      OwnerStaysReady(actors, t, gas, msgs, owner, k - 1);
      var (t1, g1) := Before(actors, t, gas, msgs, owner, k - 1);
      var o := ApplyMessage(actors, t1, g1, msgs[k - 1], owner);
      ApplyMessageFacts(actors, t1, g1, msgs[k - 1], owner);
      GrowsKeepsResolution(t1, o.tree, owner);
    }
  }

  // ----- when a run is free of faults -----

  lemma {:induction false} BeforeRest(actors: Actors, t: Tree, gas: Gas, msgs: seq<Message>, owner: Address, k: nat)
    requires k < |msgs|
    ensures var o := ApplyMessage(actors, t, gas, msgs[0], owner);
            Before(actors, t, gas, msgs, owner, k + 1) == Before(actors, o.tree, o.gas, msgs[1..], owner, k)
    decreases k
  {
    hide ApplyMessage;
    if k == 0 { assert Before(actors, t, gas, msgs, owner, 0) == (t, gas); }
    else { BeforeRest(actors, t, gas, msgs, owner, k - 1); }
  }

  /** No message faults where the run has come to when it is its turn. */
  predicate NoneFaults(actors: Actors, t: Tree, gas: Gas, msgs: seq<Message>, owner: Address) {
    forall k | 0 <= k < |msgs| ::
      var (tk, gk) := Before(actors, t, gas, msgs, owner, k); !Faults(actors, tk, gk, msgs[k])
  }

  lemma NoneFaultsFirst(actors: Actors, t: Tree, gas: Gas, msgs: seq<Message>, owner: Address)
    requires msgs != []
    ensures var o := ApplyMessage(actors, t, gas, msgs[0], owner);
            NoneFaults(actors, t, gas, msgs, owner) <==>
              !Faults(actors, t, gas, msgs[0]) && NoneFaults(actors, o.tree, o.gas, msgs[1..], owner)
  {
    hide ApplyMessage, Faults;
    var o := ApplyMessage(actors, t, gas, msgs[0], owner);
    assert Before(actors, t, gas, msgs, owner, 0) == (t, gas);
    forall k | 0 <= k < |msgs| - 1
      ensures Before(actors, t, gas, msgs, owner, k + 1) == Before(actors, o.tree, o.gas, msgs[1..], owner, k)
    {
      BeforeRest(actors, t, gas, msgs, owner, k);
    }
    if NoneFaults(actors, t, gas, msgs, owner) {
      forall k | 0 <= k < |msgs[1..]|
        ensures var (tk, gk) := Before(actors, o.tree, o.gas, msgs[1..], owner, k);
                !Faults(actors, tk, gk, msgs[1..][k])
      {
        assert msgs[1..][k] == msgs[k + 1];
        var (tk, gk) := Before(actors, t, gas, msgs, owner, k + 1);
        assert !Faults(actors, tk, gk, msgs[k + 1]);
      }
    }
    if !Faults(actors, t, gas, msgs[0]) && NoneFaults(actors, o.tree, o.gas, msgs[1..], owner) {
      forall k | 0 <= k < |msgs|
        ensures var (tk, gk) := Before(actors, t, gas, msgs, owner, k); !Faults(actors, tk, gk, msgs[k])
      {
        if k > 0 {
          assert msgs[1..][k - 1] == msgs[k];
          var (tk, gk) := Before(actors, o.tree, o.gas, msgs[1..], owner, k - 1);
          assert !Faults(actors, tk, gk, msgs[1..][k - 1]);
        }
      }
    }
  }

  /** The messages of a block run without a fault if and only if none of them faults. */
  lemma {:induction false} RunOkIff(actors: Actors, t: Tree, gas: Gas, msgs: seq<Message>, owner: Address)
    requires Honest(actors) && OwnerReady(t, owner)
    ensures ApplyAll(actors, t, gas, msgs, owner).RunOk? <==> NoneFaults(actors, t, gas, msgs, owner)
    decreases |msgs|
  {
    hide ApplyMessage, Honest, Faults, NoneFaults, Grows;
    if msgs == [] {
      NothingFaults(actors, t, gas, owner);
    } else {
      NoneFaultsFirst(actors, t, gas, msgs, owner);
      FaultIff(actors, t, gas, msgs[0], owner);
      var o := ApplyMessage(actors, t, gas, msgs[0], owner);
      if !o.outcome.Fault? {
        ApplyMessageFacts(actors, t, gas, msgs[0], owner);
        OwnerReadyAfter(t, o.tree, owner);
        RunOkIff(actors, o.tree, o.gas, msgs[1..], owner);
      }
    }
  }

  lemma NothingFaults(actors: Actors, t: Tree, gas: Gas, owner: Address)
    ensures NoneFaults(actors, t, gas, [], owner)
  {
  }

  lemma OwnerReadyAfter(t: Tree, t': Tree, owner: Address)
    requires Grows(t, t') && OwnerReady(t, owner)
    ensures OwnerReady(t', owner)
  {
    GrowsKeepsResolution(t, t', owner);
  }

  /** The network can pay the reward, the owner is there or can be created, and no message faults. */
  predicate BlockRuns(actors: Actors, t: Tree, msgs: seq<Message>, owner: Address) {
    && NETWORK_ADDRESS in t && t[NETWORK_ADDRESS].balance >= BLOCK_REWARD && GetOrCreate(t, owner).Some?
    && BlockReward(t, owner).Some?
    && NoneFaults(actors, BlockReward(t, owner).value, NO_GAS, msgs, owner)
  }

  lemma BlockOkIff(actors: Actors, t: Tree, msgs: seq<Message>, owner: Address)
    requires Honest(actors)
    ensures ApplyMessagesAndPayRewards(actors, t, msgs, owner).RunOk? <==> BlockRuns(actors, t, msgs, owner)
  {
    hide ApplyAll, Honest, NoneFaults, GetOrCreate, RewardTransfer;
    RewardTransferFacts(t, NETWORK_ADDRESS, owner, BLOCK_REWARD);
    if BlockReward(t, owner).Some? {
      RunOkIff(actors, BlockReward(t, owner).value, NO_GAS, msgs, owner);
    }
  }

  /** The tree before block `k` of a tipset. */
  function TreeBefore(actors: Actors, owners: OwnerLookup, t: Tree, miners: seq<Address>, msgs: seq<seq<Message>>,
                      k: nat): Tree
    requires |miners| == |msgs| && k <= |miners|
    decreases k
  {
    if k == 0 then t
    else
      var t1 := TreeBefore(actors, owners, t, miners, msgs, k - 1);
      var owner := owners(t1, miners[k - 1]);
      if owner.None? then t1 else ApplyMessagesAndPayRewards(actors, t1, msgs[k - 1], owner.value).tree
  }

  /** Block `k` has an owner and runs, where the tipset has come to when it is its turn. */
  predicate RunsAt(actors: Actors, owners: OwnerLookup, t: Tree, miners: seq<Address>, msgs: seq<seq<Message>>, k: nat)
    requires |miners| == |msgs| && k < |miners|
  {
    var tk := TreeBefore(actors, owners, t, miners, msgs, k);
    owners(tk, miners[k]).Some? && BlockRuns(actors, tk, msgs[k], owners(tk, miners[k]).value)
  }

  predicate AllRun(actors: Actors, owners: OwnerLookup, t: Tree, miners: seq<Address>, msgs: seq<seq<Message>>)
    requires |miners| == |msgs|
  {
    forall k | 0 <= k < |miners| :: RunsAt(actors, owners, t, miners, msgs, k)
  }

  lemma {:induction false} TreeBeforeRest(actors: Actors, owners: OwnerLookup, t: Tree, miners: seq<Address>,
                                          msgs: seq<seq<Message>>, k: nat)
    requires |miners| == |msgs| && k < |miners| && owners(t, miners[0]).Some?
    ensures var t1 := ApplyMessagesAndPayRewards(actors, t, msgs[0], owners(t, miners[0]).value).tree;
            TreeBefore(actors, owners, t, miners, msgs, k + 1) ==
              TreeBefore(actors, owners, t1, miners[1..], msgs[1..], k)
    decreases k
  {
    hide ApplyMessagesAndPayRewards;
    if k == 0 { assert TreeBefore(actors, owners, t, miners, msgs, 0) == t; }
    else { TreeBeforeRest(actors, owners, t, miners, msgs, k - 1); }
  }

  lemma RunsAtRest(actors: Actors, owners: OwnerLookup, t: Tree, miners: seq<Address>, msgs: seq<seq<Message>>, k: nat)
    requires |miners| == |msgs| && k + 1 < |miners| && owners(t, miners[0]).Some?
    ensures var t1 := ApplyMessagesAndPayRewards(actors, t, msgs[0], owners(t, miners[0]).value).tree;
            RunsAt(actors, owners, t, miners, msgs, k + 1) <==> RunsAt(actors, owners, t1, miners[1..], msgs[1..], k)
  {
    hide ApplyMessagesAndPayRewards, BlockRuns, TreeBefore;
    TreeBeforeRest(actors, owners, t, miners, msgs, k);
  }

  /** The blocks of a tipset are processed without a fault if and only if each of them runs. */
  lemma {:induction false} BlocksOkIff(actors: Actors, owners: OwnerLookup, t: Tree, miners: seq<Address>,
                                       msgs: seq<seq<Message>>)
    requires Honest(actors) && |miners| == |msgs|
    ensures ProcessBlocks(actors, owners, t, miners, msgs).TipSetOk? <==> AllRun(actors, owners, t, miners, msgs)
    decreases |miners|
  {
    hide ApplyMessagesAndPayRewards, Honest, BlockRuns, RunsAt;
    if miners != [] {
      FirstRuns(actors, owners, t, miners, msgs);
      if RunsAt(actors, owners, t, miners, msgs, 0) {
        var owner := owners(t, miners[0]).value;
        BlockOkIff(actors, t, msgs[0], owner);
        var t1 := ApplyMessagesAndPayRewards(actors, t, msgs[0], owner).tree;
        BlocksOkIff(actors, owners, t1, miners[1..], msgs[1..]);
        forall k | 0 <= k < |miners| - 1
          ensures RunsAt(actors, owners, t, miners, msgs, k + 1) <==>
                    RunsAt(actors, owners, t1, miners[1..], msgs[1..], k)
        {
          RunsAtRest(actors, owners, t, miners, msgs, k);
        }
        RestRuns(actors, owners, t, t1, miners, msgs);
      } else if owners(t, miners[0]).Some? {
        BlockOkIff(actors, t, msgs[0], owners(t, miners[0]).value);
      }
    }
  }

  lemma FirstRuns(actors: Actors, owners: OwnerLookup, t: Tree, miners: seq<Address>, msgs: seq<seq<Message>>)
    requires |miners| == |msgs| && miners != []
    ensures RunsAt(actors, owners, t, miners, msgs, 0) <==>
              owners(t, miners[0]).Some? && BlockRuns(actors, t, msgs[0], owners(t, miners[0]).value)
  {
    hide BlockRuns;
  }

  lemma RestRuns(actors: Actors, owners: OwnerLookup, t: Tree, t1: Tree, miners: seq<Address>, msgs: seq<seq<Message>>)
    requires |miners| == |msgs| && miners != [] && RunsAt(actors, owners, t, miners, msgs, 0)
    requires forall k | 0 <= k < |miners| - 1 ::
               RunsAt(actors, owners, t, miners, msgs, k + 1) <==> RunsAt(actors, owners, t1, miners[1..], msgs[1..], k)
    ensures AllRun(actors, owners, t, miners, msgs) <==> AllRun(actors, owners, t1, miners[1..], msgs[1..])
  {
    hide RunsAt;
    if AllRun(actors, owners, t, miners, msgs) {
      forall k | 0 <= k < |miners[1..]| ensures RunsAt(actors, owners, t1, miners[1..], msgs[1..], k) {
        assert RunsAt(actors, owners, t, miners, msgs, k + 1);
      }
    }
    if AllRun(actors, owners, t1, miners[1..], msgs[1..]) {
      forall k | 0 <= k < |miners| ensures RunsAt(actors, owners, t, miners, msgs, k) {
        if k > 0 {
          assert RunsAt(actors, owners, t1, miners[1..], msgs[1..], k - 1);
          assert RunsAt(actors, owners, t, miners, msgs, k - 1 + 1);
        }
      }
    }
  }

  /** A tipset is processed without a fault if and only if it has a block and each of its blocks, its
      messages freed of repetitions, has an owner and runs. */
  lemma TipSetOkIff(actors: Actors, owners: OwnerLookup, t: Tree, miners: seq<Address>, msgs: seq<seq<Message>>)
    requires Honest(actors) && |miners| == |msgs|
    ensures ProcessTipSet(actors, owners, t, miners, msgs).TipSetOk? <==>
              miners != [] && AllRun(actors, owners, t, miners, DedupAll(msgs, {}))
  {
    hide Honest, ProcessBlocks, AllRun;
    BlocksOkIff(actors, owners, t, miners, DedupAll(msgs, {}));
  }

  /** For one, a block with a single message that passes every check, to an id address nobody has. */
  lemma MessageToUnusedIdFaultsBlock(actors: Actors, owner: Address)
    ensures exists t: Tree, msg: Message ::
              && msg.gasPrice > 0 && Admissible(t, NO_GAS, msg)
              && ApplyAll(actors, t, NO_GAS, [msg], owner).RunFault?
  {
    hide ApplyMessage;
    var sender: Address := [0, 101];
    var t: Tree := map[sender := Actor(AccountCode, NoHead, 0, 100)];
    var msg := Message([0, 102], sender, 0, 1, 0, [], 1, 10);
    assert msg.from[1] != msg.to[1];
    assert Admissible(t, NO_GAS, msg);
    UnusedIdFaults(actors, t, NO_GAS, msg, owner);
    assert ApplyAll(actors, t, NO_GAS, [msg], owner).RunFault?;
  }

  // ----- what is reported of each message -----

  /** A result says how a message ended, in the outcome's own words. */
  predicate Reports(r: MessageResult, o: Outcome) {
    && (o.Applied? <==> r.Success?)
    && (o.Applied? ==> r.receipt == o.receipt && r.executionError == o.executionError)
    && (o.Temporary? || o.Permanent? ==> r.Failure? && r.error == o.error && r.permanent == o.Permanent?)
  }

  /** Each result of a run is that of the message in its place, where the run had come to. */
  lemma {:induction false} EachResultReports(actors: Actors, t: Tree, gas: Gas, msgs: seq<Message>, owner: Address,
                                             k: nat)
    requires k < |msgs| && ApplyAll(actors, t, gas, msgs, owner).RunOk?
    ensures var (tk, gk) := Before(actors, t, gas, msgs, owner, k);
            var o := ApplyMessage(actors, tk, gk, msgs[k], owner).outcome;
            !o.Fault? && Reports(ApplyAll(actors, t, gas, msgs, owner).results[k], o)
    decreases k
  {
    hide ApplyMessage;
    if k == 0 {
      assert Before(actors, t, gas, msgs, owner, 0) == (t, gas);
    } else {
      var o := ApplyMessage(actors, t, gas, msgs[0], owner);
      BeforeRest(actors, t, gas, msgs, owner, k - 1);
      EachResultReports(actors, o.tree, o.gas, msgs[1..], owner, k - 1);
    }
  }

  lemma {:induction false} NoneFaultedBefore(actors: Actors, t: Tree, gas: Gas, msgs: seq<Message>, owner: Address)
    requires ApplyAll(actors, t, gas, msgs, owner).RunOk?
    ensures forall k | 0 <= k < |msgs| ::
              var (tk, gk) := Before(actors, t, gas, msgs, owner, k);
              !ApplyMessage(actors, tk, gk, msgs[k], owner).outcome.Fault?
  {
    hide ApplyMessage, ApplyAll, Before;
    forall k | 0 <= k < |msgs|
      ensures var (tk, gk) := Before(actors, t, gas, msgs, owner, k);
              !ApplyMessage(actors, tk, gk, msgs[k], owner).outcome.Fault?
    {
      EachResultReports(actors, t, gas, msgs, owner, k);
    }
  }

  /** A message is reported as failed for good if and only if it is to be rejected for good where the
      run has come to, as failed for now if and only if it is to be rejected for now, and as a success
      otherwise. */
  lemma ResultsIff(actors: Actors, t: Tree, gas: Gas, msgs: seq<Message>, owner: Address, k: nat)
    requires Honest(actors) && KeepsNegativeTransferInside(actors) && OwnerReady(t, owner)
    requires k < |msgs| && ApplyAll(actors, t, gas, msgs, owner).RunOk?
    ensures var (tk, gk) := Before(actors, t, gas, msgs, owner, k);
            var r := ApplyAll(actors, t, gas, msgs, owner).results[k];
            && (r.Failure? && r.permanent <==> ForGood(tk, gk, msgs[k]))
            && (r.Failure? && !r.permanent <==> ForNow(tk, gk, msgs[k]))
            && (r.Success? <==> !ForGood(tk, gk, msgs[k]) && !ForNow(tk, gk, msgs[k]))
  {
    hide Honest, KeepsNegativeTransferInside, ApplyMessage, ApplyAll, Before, ForGood, ForNow, OwnerReady;
    NoneFaultedBefore(actors, t, gas, msgs, owner);
    OwnerStaysReady(actors, t, gas, msgs, owner, k);
    EachResultReports(actors, t, gas, msgs, owner, k);
    var (tk, gk) := Before(actors, t, gas, msgs, owner, k);
    RejectedIff(actors, tk, gk, msgs[k], owner);
  }

  /** Where a block stands before message `k`, once its reward is paid. */
  function BlockBefore(actors: Actors, t: Tree, msgs: seq<Message>, owner: Address, k: nat): (Tree, Gas)
    requires k <= |msgs| && BlockReward(t, owner).Some?
  {
    Before(actors, BlockReward(t, owner).value, NO_GAS, msgs, owner, k)
  }

  lemma BlockResultsIff(actors: Actors, t: Tree, msgs: seq<Message>, owner: Address, k: nat)
    requires Honest(actors) && KeepsNegativeTransferInside(actors)
    requires k < |msgs| && ApplyMessagesAndPayRewards(actors, t, msgs, owner).RunOk?
    ensures BlockReward(t, owner).Some?
    ensures var (tk, gk) := BlockBefore(actors, t, msgs, owner, k);
            var r := ApplyMessagesAndPayRewards(actors, t, msgs, owner).results[k];
            && (r.Failure? && r.permanent <==> ForGood(tk, gk, msgs[k]))
            && (r.Failure? && !r.permanent <==> ForNow(tk, gk, msgs[k]))
            && (r.Success? <==> !ForGood(tk, gk, msgs[k]) && !ForNow(tk, gk, msgs[k]))
  {
    hide Honest, KeepsNegativeTransferInside, ApplyAll, Before, ForGood, ForNow, RewardTransfer;
    RewardTransferFacts(t, NETWORK_ADDRESS, owner, BLOCK_REWARD);
    ResultsIff(actors, BlockReward(t, owner).value, NO_GAS, msgs, owner, k);
  }

  /** The results of a tipset are those of its blocks, one for each message, in the order of the blocks
      and of the messages in them. */
  lemma {:induction false} BlocksResults(actors: Actors, owners: OwnerLookup, t: Tree, miners: seq<Address>,
                                         msgs: seq<seq<Message>>, k: nat, i: nat)
    requires |miners| == |msgs| && k < |miners| && i < |msgs[k]|
    requires ProcessBlocks(actors, owners, t, miners, msgs).TipSetOk?
    ensures var results := ProcessBlocks(actors, owners, t, miners, msgs).results;
            var tk := TreeBefore(actors, owners, t, miners, msgs, k);
            && owners(tk, miners[k]).Some?
            && var b := ApplyMessagesAndPayRewards(actors, tk, msgs[k], owners(tk, miners[k]).value);
            && b.RunOk?
            && |Flat(msgs[..k])| + i < |results| && results[|Flat(msgs[..k])| + i] == b.results[i]
    decreases k
  {
    hide ApplyMessagesAndPayRewards;
    if k == 0 {
      assert TreeBefore(actors, owners, t, miners, msgs, 0) == t && msgs[..0] == [];
    } else {
      var b := ApplyMessagesAndPayRewards(actors, t, msgs[0], owners(t, miners[0]).value);
      BlocksResults(actors, owners, b.tree, miners[1..], msgs[1..], k - 1, i);
      TreeBeforeRest(actors, owners, t, miners, msgs, k - 1);
      assert msgs[..k][1..] == msgs[1..][..k - 1];
    }
  }

  lemma {:induction false} OneResultEach(actors: Actors, owners: OwnerLookup, t: Tree, miners: seq<Address>,
                                         msgs: seq<seq<Message>>)
    requires |miners| == |msgs| && ProcessBlocks(actors, owners, t, miners, msgs).TipSetOk?
    ensures |ProcessBlocks(actors, owners, t, miners, msgs).results| == |Flat(msgs)|
    decreases |miners|
  {
    hide ApplyMessagesAndPayRewards;
    if miners != [] {
      var b := ApplyMessagesAndPayRewards(actors, t, msgs[0], owners(t, miners[0]).value);
      OneResultEach(actors, owners, b.tree, miners[1..], msgs[1..]);
    }
  }

  /** So, over all blocks of a tipset freed of repetitions, each message is reported as failed for good,
      failed for now, or a success by what it is where the tipset has come to. */
  lemma TipSetResultsIff(actors: Actors, owners: OwnerLookup, t: Tree, miners: seq<Address>, msgs: seq<seq<Message>>,
                         k: nat, i: nat)
    requires Honest(actors) && KeepsNegativeTransferInside(actors) && |miners| == |msgs| && k < |miners|
    requires i < |DedupAll(msgs, {})[k]| && ProcessTipSet(actors, owners, t, miners, msgs).TipSetOk?
    ensures var kept, results := DedupAll(msgs, {}), ProcessTipSet(actors, owners, t, miners, msgs).results;
            var tk := TreeBefore(actors, owners, t, miners, kept, k);
            && |results| == |Flat(kept)| && |Flat(kept[..k])| + i < |results|
            && owners(tk, miners[k]).Some? && BlockReward(tk, owners(tk, miners[k]).value).Some?
            && var (ti, gi) := BlockBefore(actors, tk, kept[k], owners(tk, miners[k]).value, i);
            && var r := results[|Flat(kept[..k])| + i];
            && (r.Failure? && r.permanent <==> ForGood(ti, gi, kept[k][i]))
            && (r.Failure? && !r.permanent <==> ForNow(ti, gi, kept[k][i]))
            && (r.Success? <==> !ForGood(ti, gi, kept[k][i]) && !ForNow(ti, gi, kept[k][i]))
  {
    hide Honest, KeepsNegativeTransferInside, ProcessBlocks, ApplyMessagesAndPayRewards, DedupAll, Flat, BlockReward;
    hide BlockBefore, ForGood, ForNow, TreeBefore;
    var kept := DedupAll(msgs, {});
    BlocksResults(actors, owners, t, miners, kept, k, i);
    OneResultEach(actors, owners, t, miners, kept);
    var tk := TreeBefore(actors, owners, t, miners, kept, k);
    BlockResultsIff(actors, tk, kept[k], owners(tk, miners[k]).value, i);
  }

  // ----- no replay -----

  /** The nonces of the messages a run applies for the actor at `a`, in order. */
  function AppliedNonces(actors: Actors, t: Tree, gas: Gas, msgs: seq<Message>, owner: Address, a: Address): seq<Uint64>
    decreases |msgs|
  {
    if msgs == [] then []
    else
      var o := ApplyMessage(actors, t, gas, msgs[0], owner);
      var rest := AppliedNonces(actors, o.tree, o.gas, msgs[1..], owner, a);
      if o.outcome.Applied? && Resolve(t, msgs[0].from) == Resolved(a) then [msgs[0].callSeqNum] + rest else rest
  }

  lemma AppliedHasCurrentNonce(actors: Actors, t: Tree, gas: Gas, msg: Message, owner: Address)
    requires msg.gasPrice > 0
    requires ApplyMessage(actors, t, gas, msg, owner).outcome.Applied?
    ensures Resolve(t, msg.from).Resolved? && msg.callSeqNum == NonceOf(t, Resolve(t, msg.from).addr)
  {
  }

  /** No replay: the nonces applied for an actor count up by one from its nonce at the start,
      and its nonce at the end is the start plus their number. */
  lemma {:induction false} AppliedNoncesAreContiguous(actors: Actors, t: Tree, gas: Gas, msgs: seq<Message>,
                                            owner: Address, a: Address)
    requires Honest(actors)
    requires forall m | m in msgs :: m.gasPrice > 0
    requires ApplyAll(actors, t, gas, msgs, owner).RunOk?
    ensures var s := AppliedNonces(actors, t, gas, msgs, owner, a);
            && (forall k | 0 <= k < |s| :: s[k] == Wrap(NonceOf(t, a) + k))
            && NonceOf(ApplyAll(actors, t, gas, msgs, owner).tree, a) == Wrap(NonceOf(t, a) + |s|)
    decreases |msgs|
  {
    hide ApplyMessage, Wrap, Grows, Honest, NonceOf, Resolve;
    if msgs == [] {
      WrapNone(NonceOf(t, a));
    } else {
      var m := msgs[0];
      var o := ApplyMessage(actors, t, gas, m, owner);
      ApplyMessageFacts(actors, t, gas, m, owner);
      AppliedNoncesAreContiguous(actors, o.tree, o.gas, msgs[1..], owner, a);
      var rest := AppliedNonces(actors, o.tree, o.gas, msgs[1..], owner, a);
      if o.outcome.Applied? && Resolve(t, m.from) == Resolved(a) {
        AppliedHasCurrentNonce(actors, t, gas, m, owner);
        CountedFrom(NonceOf(t, a), rest);
      }
    }
  }

  lemma WrapNone(n: Uint64)
    ensures Wrap(n + 0) == n
  {
  }

  /** A nonce in front of those that count up from the next one. */
  lemma CountedFrom(n: Uint64, rest: seq<Uint64>)
    requires forall k | 0 <= k < |rest| :: rest[k] == Wrap(Wrap(n + 1) + k)
    ensures forall k | 0 <= k < |[n] + rest| :: ([n] + rest)[k] == Wrap(n + k)
    ensures Wrap(Wrap(n + 1) + |rest|) == Wrap(n + |[n] + rest|)
  {
    hide Wrap;
    WrapNone(n);
    forall k | 0 < k < |[n] + rest| ensures ([n] + rest)[k] == Wrap(n + k) { WrapAfterOne(n, k - 1); }
    WrapAfterOne(n, |rest|);
  }

  lemma WrapAfterOne(n: Uint64, k: nat)
    ensures Wrap(Wrap(n + 1) + k) == Wrap(n + (k + 1))
  {
  }

  lemma WrapsApart(n: Uint64, i: nat, j: nat)
    requires i < j && j - i < TWO_64
    ensures Wrap(n + i) != Wrap(n + j)
  {
  }

  /** The nonces of the messages a tipset applies for the actor at `a`, over all its blocks. */
  function NoncesInBlocks(actors: Actors, owners: OwnerLookup, t: Tree, miners: seq<Address>, msgs: seq<seq<Message>>,
                          a: Address): seq<Uint64>
    requires |miners| == |msgs|
    decreases |miners|
  {
    if miners == [] || owners(t, miners[0]).None? || BlockReward(t, owners(t, miners[0]).value).None? then []
    else
      var owner := owners(t, miners[0]).value;
      var r := ApplyMessagesAndPayRewards(actors, t, msgs[0], owner);
      AppliedNonces(actors, BlockReward(t, owner).value, NO_GAS, msgs[0], owner, a) +
        NoncesInBlocks(actors, owners, r.tree, miners[1..], msgs[1..], a)
  }

  predicate CountsUp(n: Uint64, s: seq<Uint64>) {
    forall k | 0 <= k < |s| :: s[k] == Wrap(n + k)
  }

  lemma CountsOn(n: Uint64, s: seq<Uint64>, rest: seq<Uint64>)
    requires CountsUp(n, s) && CountsUp(Wrap(n + |s|), rest)
    ensures CountsUp(n, s + rest) && Wrap(Wrap(n + |s|) + |rest|) == Wrap(n + |s + rest|)
  {
    hide Wrap;
    forall k | 0 <= k < |s + rest| ensures (s + rest)[k] == Wrap(n + k) {
      if k >= |s| { WrapTwice(n, |s|, k - |s|); }
    }
    WrapTwice(n, |s|, |rest|);
  }

  lemma WrapTwice(n: Uint64, j: nat, k: nat)
    ensures Wrap(Wrap(n + j) + k) == Wrap(n + (j + k))
  {
  }

  /** The nonces a block applies for an actor, and its nonce after the block: rewards change none. */
  lemma BlockNonces(actors: Actors, t: Tree, msgs: seq<Message>, owner: Address, a: Address)
    requires Honest(actors) && forall m | m in msgs :: m.gasPrice > 0
    requires ApplyMessagesAndPayRewards(actors, t, msgs, owner).RunOk?
    ensures BlockReward(t, owner).Some?
    ensures var s := AppliedNonces(actors, BlockReward(t, owner).value, NO_GAS, msgs, owner, a);
            && CountsUp(NonceOf(t, a), s)
            && NonceOf(ApplyMessagesAndPayRewards(actors, t, msgs, owner).tree, a) == Wrap(NonceOf(t, a) + |s|)
  {
    hide ApplyAll, AppliedNonces, Honest, Wrap, RewardTransfer;
    RewardTransferFacts(t, NETWORK_ADDRESS, owner, BLOCK_REWARD);
    var t1 := BlockReward(t, owner).value;
    AppliedNoncesAreContiguous(actors, t1, NO_GAS, msgs, owner, a);
    SameNonce(t, t1, a);
  }

  lemma SameNonce(t: Tree, t': Tree, a: Address)
    requires Extends(t, t')
    ensures NonceOf(t', a) == NonceOf(t, a)
  {
    hide Total;
  }

  lemma {:induction false} BlocksNonces(actors: Actors, owners: OwnerLookup, t: Tree, miners: seq<Address>,
                                        msgs: seq<seq<Message>>, a: Address)
    requires Honest(actors) && |miners| == |msgs|
    requires forall i, m | 0 <= i < |msgs| && m in msgs[i] :: m.gasPrice > 0
    requires ProcessBlocks(actors, owners, t, miners, msgs).TipSetOk?
    ensures var s := NoncesInBlocks(actors, owners, t, miners, msgs, a);
            && CountsUp(NonceOf(t, a), s)
            && NonceOf(ProcessBlocks(actors, owners, t, miners, msgs).tree, a) == Wrap(NonceOf(t, a) + |s|)
    decreases |miners|
  {
    hide ApplyMessagesAndPayRewards, AppliedNonces, Honest, Wrap, NonceOf, CountsUp;
    if miners == [] {
      WrapNone(NonceOf(t, a));
      NoneCounts(NonceOf(t, a));
    } else {
      var owner := owners(t, miners[0]).value;
      BlockNonces(actors, t, msgs[0], owner, a);
      var r := ApplyMessagesAndPayRewards(actors, t, msgs[0], owner);
      BlocksNonces(actors, owners, r.tree, miners[1..], msgs[1..], a);
      CountsOn(NonceOf(t, a), AppliedNonces(actors, BlockReward(t, owner).value, NO_GAS, msgs[0], owner, a),
               NoncesInBlocks(actors, owners, r.tree, miners[1..], msgs[1..], a));
    }
  }

  lemma NoneCounts(n: Uint64)
    ensures CountsUp(n, [])
  {
  }

  lemma {:induction false} DedupAllIsPart(blocks: seq<seq<Message>>, seen: set<Message>, i: nat, m: Message)
    requires i < |blocks| && m in DedupAll(blocks, seen)[i]
    ensures m in blocks[i]
    decreases i
  {
    if i == 0 { DedupFacts(blocks[0], seen); }
    else { DedupAllIsPart(blocks[1..], seen + (set x | x in blocks[0]), i - 1, m); }
  }

  /** No replay in a tipset: over all its blocks, whatever messages they share or conflict in, the
      nonces applied for an actor count up by one from its nonce at the start, and its nonce at the
      end is the start plus their number. */
  lemma TipSetNoncesAreContiguous(actors: Actors, owners: OwnerLookup, t: Tree, miners: seq<Address>,
                                  msgs: seq<seq<Message>>, a: Address)
    requires Honest(actors) && |miners| == |msgs|
    requires forall i, m | 0 <= i < |msgs| && m in msgs[i] :: m.gasPrice > 0
    requires ProcessTipSet(actors, owners, t, miners, msgs).TipSetOk?
    ensures var s := NoncesInBlocks(actors, owners, t, miners, DedupAll(msgs, {}), a);
            && (forall k | 0 <= k < |s| :: s[k] == Wrap(NonceOf(t, a) + k))
            && NonceOf(ProcessTipSet(actors, owners, t, miners, msgs).tree, a) == Wrap(NonceOf(t, a) + |s|)
  {
    hide ProcessBlocks, NoncesInBlocks, DedupAll, Honest, Wrap, NonceOf;
    var kept := DedupAll(msgs, {});
    forall i, m: Message | 0 <= i < |kept| && m in kept[i] ensures m.gasPrice > 0 { DedupAllIsPart(msgs, {}, i, m); }
    BlocksNonces(actors, owners, t, miners, kept, a);
  }

  /** So no nonce is applied twice for an actor in a tipset. */
  lemma NoNonceTwiceInTipSet(actors: Actors, owners: OwnerLookup, t: Tree, miners: seq<Address>,
                             msgs: seq<seq<Message>>, a: Address, i: nat, j: nat)
    requires Honest(actors) && |miners| == |msgs|
    requires forall i, m | 0 <= i < |msgs| && m in msgs[i] :: m.gasPrice > 0
    requires ProcessTipSet(actors, owners, t, miners, msgs).TipSetOk?
    requires i < j < |NoncesInBlocks(actors, owners, t, miners, DedupAll(msgs, {}), a)| && j - i < TWO_64
    ensures var s := NoncesInBlocks(actors, owners, t, miners, DedupAll(msgs, {}), a); s[i] != s[j]
  {
    hide *;
    TipSetNoncesAreContiguous(actors, owners, t, miners, msgs, a);
    WrapsApart(NonceOf(t, a), i, j);
  }

  /** The gas price must be positive for that.  A message just applied is applied once more if and
      only if its gas price is not positive: its nonce is never looked at then. */
  lemma ReplayedIff(actors: Actors, t: Tree, gas: Gas, msg: Message, owner: Address)
    requires Honest(actors)
    requires ApplyMessage(actors, t, gas, msg, owner).outcome.Applied?
    ensures var o := ApplyMessage(actors, t, gas, msg, owner);
            ApplyMessage(actors, o.tree, o.gas, msg, owner).outcome.Applied? <==> msg.gasPrice <= 0
  {
    hide ApplyMessage, Honest, Grows;
    var o := ApplyMessage(actors, t, gas, msg, owner);
    ApplyMessageFacts(actors, t, gas, msg, owner);
    AppliedIsResolved(actors, t, gas, msg, owner);
    GrowsKeepsResolution(t, o.tree, msg.from);
    if msg.gasPrice <= 0 {
      UnpricedApplies(actors, t, gas, msg, owner);
      UnpricedApplies(actors, o.tree, o.gas, msg, owner);
    } else {
      AppliedHasCurrentNonce(actors, t, gas, msg, owner);
      if ApplyMessage(actors, o.tree, o.gas, msg, owner).outcome.Applied? {
        AppliedHasCurrentNonce(actors, o.tree, o.gas, msg, owner);
      }
    }
  }

  /** Without a positive gas price all that is asked is that the message fits and is not to self. */
  lemma UnpricedApplies(actors: Actors, t: Tree, gas: Gas, msg: Message, owner: Address)
    requires msg.gasPrice <= 0 && Resolve(t, msg.from).Resolved? && Resolve(t, msg.from).addr in t
    ensures var o := ApplyMessage(actors, t, gas, msg, owner);
            && (o.outcome.Applied? <==> msg.from != msg.to && FitsBlock(gas, msg))
            && (o.outcome.Applied? ==>
                  && o.outcome == Applied(Receipt(1, [], 0), Some(GasPriceZero))
                  && o.gas.byBlock == gas.byBlock)
  {
    hide Resolve;
  }

  /** For one, a free message with a nonce the sender is not at is applied twice in one block. */
  lemma FreeMessageIsReplayed(actors: Actors, owner: Address)
    ensures exists t: Tree, msg: Message ::
              var r := ApplyAll(actors, t, NO_GAS, [msg, msg], owner);
              r.RunOk? && r.results[0].Success? && r.results[1].Success?
  {
    hide ApplyMessage;
    var sender: Address := [0, 101];
    var t: Tree := map[sender := Actor(AccountCode, NoHead, 0, 0)];
    var msg := Message([0, 102], sender, 7, 0, 2, [], 0, 10);
    assert msg.from[1] != msg.to[1];
    UnpricedApplies(actors, t, NO_GAS, msg, owner);
    var o := ApplyMessage(actors, t, NO_GAS, msg, owner);
    AppliedStillResolves(actors, t, NO_GAS, msg, owner);
    UnpricedApplies(actors, o.tree, o.gas, msg, owner);
    assert [msg, msg][1..] == [msg] && [msg][1..] == [];
    assert ApplyAll(actors, o.tree, o.gas, [msg], owner).RunOk?;
    var r := ApplyAll(actors, t, NO_GAS, [msg, msg], owner);
    assert r.RunOk? && r.results[0].Success? && r.results[1].Success?;
  }

  lemma AppliedStillResolves(actors: Actors, t: Tree, gas: Gas, msg: Message, owner: Address)
    requires msg.gasPrice <= 0 && Protocol(msg.from) == PROTOCOL_ID
    requires ApplyMessage(actors, t, gas, msg, owner).outcome.Applied?
    ensures var o := ApplyMessage(actors, t, gas, msg, owner);
            Resolve(o.tree, msg.from) == Resolved(msg.from) && msg.from in o.tree
  {
  }

  // ----- replay agreement -----

  /** The messages of a run that were applied, which are those a miner puts into its block. */
  function Accepted<T>(msgs: seq<T>, results: seq<MessageResult>): seq<T>
    requires |msgs| == |results|
  {
    if msgs == [] then []
    else (if results[0].Success? then [msgs[0]] else []) + Accepted(msgs[1..], results[1..])
  }

  function Successes(results: seq<MessageResult>): seq<MessageResult> {
    if results == [] then []
    else (if results[0].Success? then [results[0]] else []) + Successes(results[1..])
  }

  /** Of the gas tracker only the gas used by the block so far matters to the next message. */
  lemma OnlyBlockGasMatters(actors: Actors, t: Tree, g1: Gas, g2: Gas, msg: Message, owner: Address)
    requires g1.byBlock == g2.byBlock
    ensures ApplyMessage(actors, t, g1, msg, owner) == ApplyMessage(actors, t, g2, msg, owner)
  {
    assert ResetForNewMessage(g1, msg) == ResetForNewMessage(g2, msg);
  }

  /** Replay agreement: running only the accepted messages, from the same tree, ends in the
      same tree with the same receipts. */
  lemma {:induction false} AcceptedReplayTheSame(actors: Actors, t: Tree, g1: Gas, g2: Gas, msgs: seq<Message>,
                                            owner: Address)
    requires KeepsNegativeTransferInside(actors)
    requires g1.byBlock == g2.byBlock
    requires ApplyAll(actors, t, g1, msgs, owner).RunOk?
    ensures var r := ApplyAll(actors, t, g1, msgs, owner);
            var again := ApplyAll(actors, t, g2, Accepted(msgs, r.results), owner);
            again.RunOk? && again.tree == r.tree && again.results == Successes(r.results)
    decreases |msgs|
  {
    if msgs != [] {
      var m := msgs[0];
      var r := ApplyAll(actors, t, g1, msgs, owner);
      var o := ApplyMessage(actors, t, g1, m, owner);
      OnlyBlockGasMatters(actors, t, g1, g2, m, owner);
      var rest := Accepted(msgs[1..], r.results[1..]);
      if o.outcome.Applied? {
        AcceptedReplayTheSame(actors, o.tree, o.gas, o.gas, msgs[1..], owner);
        assert Accepted(msgs, r.results) == [m] + rest;
        assert ([m] + rest)[1..] == rest;
      } else {
        EveryRejectionLeavesStateUnchanged(actors, t, g1, m, owner);
        AcceptedReplayTheSame(actors, t, o.gas, g2, msgs[1..], owner);
        assert Accepted(msgs, r.results) == rest;
      }
    }
  }

  // ----- duplicate messages in a tipset -----

  predicate NoDuplicates(msgs: seq<Message>) {
    forall i, j | 0 <= i < j < |msgs| :: msgs[i] != msgs[j]
  }

  function Flat(blocks: seq<seq<Message>>): seq<Message> {
    if blocks == [] then [] else blocks[0] + Flat(blocks[1..])
  }

  lemma {:induction false} DedupFacts(msgs: seq<Message>, seen: set<Message>)
    ensures NoDuplicates(Dedup(msgs, seen))
    ensures forall m :: m in Dedup(msgs, seen) <==> m in msgs && m !in seen
  {
    if msgs != [] {
      DedupFacts(msgs[1..], seen);
      DedupFacts(msgs[1..], seen + {msgs[0]});
      assert forall m :: m in msgs <==> m == msgs[0] || m in msgs[1..];
    }
  }

  lemma {:induction false} DedupConcat(a: seq<Message>, b: seq<Message>, seen: set<Message>)
    ensures Dedup(a + b, seen) == Dedup(a, seen) + Dedup(b, seen + (set m | m in a))
  {
    hide Dedup;
    if a == [] {
      assert a + b == b && seen + (set m | m in a) == seen;
      DedupNone(seen);
    } else {
      assert (a + b)[1..] == a[1..] + b;
      var seen' := if a[0] in seen then seen else seen + {a[0]};
      DedupConcat(a[1..], b, seen');
      SeenWithFirst(a, seen, seen');
      DedupFirst(a, seen);
      DedupFirst(a + b, seen);
      var rest := Dedup(b, seen + (set m | m in a));
      assert [a[0]] + (Dedup(a[1..], seen') + rest) == [a[0]] + Dedup(a[1..], seen') + rest;
    }
  }

  lemma SeenWithFirst(a: seq<Message>, seen: set<Message>, seen': set<Message>)
    requires a != [] && seen' == if a[0] in seen then seen else seen + {a[0]}
    ensures seen' + (set m | m in a[1..]) == seen + (set m | m in a)
  {
    assert forall m :: m in a <==> m == a[0] || m in a[1..];
  }

  /** Dropping repeated messages block by block is dropping them from the whole tipset: over all
      its blocks together every message stays exactly once, at its first occurrence. */
  lemma {:induction false} DedupAllIsGlobal(blocks: seq<seq<Message>>, seen: set<Message>)
    ensures Flat(DedupAll(blocks, seen)) == Dedup(Flat(blocks), seen)
  {
    if blocks != [] {
      var rest := DedupAll(blocks[1..], seen + (set m | m in blocks[0]));
      DedupAllIsGlobal(blocks[1..], seen + (set m | m in blocks[0]));
      DedupConcat(blocks[0], Flat(blocks[1..]), seen);
      assert DedupAll(blocks, seen)[1..] == rest;
    }
  }

  lemma {:induction false} DedupOfDistinct(msgs: seq<Message>, seen: set<Message>)
    requires NoDuplicates(msgs) && forall m | m in msgs :: m !in seen
    ensures Dedup(msgs, seen) == msgs
  {
    if msgs != [] {
      DedupOfDistinct(msgs[1..], seen + {msgs[0]});
    }
  }

  lemma {:induction false} AcceptedIsPart<T>(msgs: seq<T>, results: seq<MessageResult>)
    requires |msgs| == |results|
    ensures forall m | m in Accepted(msgs, results) :: m in msgs
  {
    if msgs != [] { AcceptedIsPart(msgs[1..], results[1..]); }
  }

  lemma {:induction false} AcceptedKeepsDistinct(msgs: seq<Message>, results: seq<MessageResult>)
    requires |msgs| == |results| && NoDuplicates(msgs)
    ensures NoDuplicates(Accepted(msgs, results))
  {
    if msgs != [] {
      AcceptedIsPart(msgs[1..], results[1..]);
      AcceptedKeepsDistinct(msgs[1..], results[1..]);
      assert msgs[0] !in msgs[1..];
    }
  }

  /** A block mined from distinct candidates, processed as a tipset of its own on the state it
      was mined on, ends in the state and with the receipts its miner saw. */
  lemma MinedBlockReplays(actors: Actors, owners: OwnerLookup, t: Tree, miner: Address, owner: Address,
                          msgs: seq<Message>)
    requires KeepsNegativeTransferInside(actors)
    requires owners(t, miner) == Some(owner)
    requires NoDuplicates(msgs)
    requires ApplyMessagesAndPayRewards(actors, t, msgs, owner).RunOk?
    ensures var r := ApplyMessagesAndPayRewards(actors, t, msgs, owner);
            ProcessTipSet(actors, owners, t, [miner], [Accepted(msgs, r.results)])
              == TipSetOk(r.tree, Successes(r.results))
  {
    hide ApplyAll, BlockReward;
    var r := ApplyMessagesAndPayRewards(actors, t, msgs, owner);
    var mined := Accepted(msgs, r.results);
    AcceptedIsPart(msgs, r.results);
    AcceptedKeepsDistinct(msgs, r.results);
    DedupOfDistinct(mined, {});
    var t1 := BlockReward(t, owner).value;
    AcceptedReplayTheSame(actors, t1, NO_GAS, NO_GAS, msgs, owner);
    var again := ApplyMessagesAndPayRewards(actors, t, mined, owner);
    assert again.RunOk? && again.tree == r.tree && again.results == Successes(r.results);
    assert DedupAll([mined], {}) == [mined] by {
      assert [mined][1..] == [];
    }
    OneBlock(actors, owners, t, miner, owner, mined);
  }

  lemma OneBlock(actors: Actors, owners: OwnerLookup, t: Tree, miner: Address, owner: Address, msgs: seq<Message>)
    requires owners(t, miner) == Some(owner)
    requires ApplyMessagesAndPayRewards(actors, t, msgs, owner).RunOk?
    ensures var r := ApplyMessagesAndPayRewards(actors, t, msgs, owner);
            ProcessBlocks(actors, owners, t, [miner], [msgs]) == TipSetOk(r.tree, r.results)
  {
    hide ApplyMessagesAndPayRewards;
    var r := ApplyMessagesAndPayRewards(actors, t, msgs, owner);
    assert [miner][1..] == [] && [msgs][1..] == [];
    assert ProcessBlocks(actors, owners, r.tree, [], []) == TipSetOk(r.tree, []);
    assert r.results + [] == r.results;
  }
}
