/** Who pays what: balances after rewards and messages, and the receipts of applied messages. */
module Payments {
  import opened Primitives
  import opened StateTree
  import opened Messages
  import opened MessageSemantics
  import opened MessageTheorems

  /** The balance as seen from outside: an actor not yet in the tree has nothing. */
  function BalanceOf(t: Tree, a: Address): int {
    if a in t then t[a].balance else 0
  }

  /** Between two trees `from` has paid `value` to `to` and no other balance differs.  Where the two are
      one actor, no balance differs at all. */
  ghost predicate Paid(t: Tree, t': Tree, from: Address, to: Address, value: int) {
    forall a: Address ::
      BalanceOf(t', a) == BalanceOf(t, a) + (if a == to then value else 0) - (if a == from then value else 0)
  }

  lemma MovePays(t: Tree, from: Address, to: Address, value: int)
    requires from in t && to in t
    ensures Paid(t, Move(t, from, to, value), from, to, value)
  {
  }

  /** An actor created on demand starts with nothing, or with what is at its id already. */
  lemma CreatingIsFree(t: Tree, a: Address)
    requires GetOrCreate(t, a).Some?
    ensures forall b: Address :: BalanceOf(GetOrCreate(t, a).value.0, b) == BalanceOf(t, b)
  {
  }

  lemma RewardPays(t: Tree, from: Address, toAddr: Address, value: int)
    requires RewardTransfer(t, from, toAddr, value).Some?
    ensures var t' := RewardTransfer(t, from, toAddr, value).value;
            Resolve(t', toAddr).Resolved? && Paid(t, t', from, Resolve(t', toAddr).addr, value)
  {
    hide GetOrCreate, Resolve, Move, Grows;
    var (t1, to) := GetOrCreate(t, toAddr).value;
    CreatingIsFree(t, toAddr);
    GetOrCreateExtends(t, toAddr);
    MovePays(t1, from, to, value);
    MoveExtends(t1, from, to, value);
    GrowsKeepsResolution(t1, Move(t1, from, to, value), toAddr);
  }

  /** A gas reward that succeeds takes exactly the cost from the sender and gives it to the owner, who is
      there afterwards. */
  lemma GasRewardPays(t: Tree, owner: Address, msg: Message, cost: int)
    requires GasReward(t, owner, msg, cost).Some?
    ensures var t' := GasReward(t, owner, msg, cost).value;
            && Resolve(t, msg.from).Resolved? && Resolve(t', owner).Resolved?
            && Paid(t, t', Resolve(t, msg.from).addr, Resolve(t', owner).addr, cost)
  {
    hide RewardTransfer, Resolve, Paid;
    RewardPays(t, Resolve(t, msg.from).addr, owner, cost);
  }

  /** A block reward takes 1000 FIL from the network actor. */
  lemma BlockRewardPays(t: Tree, owner: Address)
    requires BlockReward(t, owner).Some?
    ensures var t' := BlockReward(t, owner).value;
            Resolve(t', owner).Resolved? && Paid(t, t', [0, 50], Resolve(t', owner).addr, 1000_000_000_000_000_000_000)
  {
    hide RewardTransfer, Resolve, Paid;
    assert NETWORK_ADDRESS == [0, 50];
    RewardPays(t, NETWORK_ADDRESS, owner, BLOCK_REWARD);
  }

  /** What an attempt charges is the price of the units it has used, whether or not it was executed. */
  lemma ChargeIsPriceOfUnits(actors: Actors, t: Tree, gas: Gas, msg: Message)
    requires Attempt(actors, t, gas, msg).Attempted?
    ensures var a := Attempt(actors, t, gas, msg);
            a.receipt.gasAttoFIL == msg.gasPrice * a.gas.byMessage
  {
    hide Resolve, GetOrCreate, Send, Validate;
  }

  /** The owner resolves the same in every tree that extends one in which it has an actor. */
  lemma GasIsPaidToOwner(t: Tree, kept: Tree, owner: Address, msg: Message, cost: int)
    requires Extends(t, kept) && OwnerReady(t, owner) && SenderIsKnown(t, msg)
    requires GasReward(kept, owner, msg, cost).Some?
    ensures Paid(kept, GasReward(kept, owner, msg, cost).value, Resolve(t, msg.from).addr, Resolve(t, owner).addr, cost)
  {
    hide GasReward, RewardTransfer, Resolve, Paid, Extends;
    GasRewardPays(kept, owner, msg, cost);
    ExtendsResolves(t, kept, msg.from);
    ExtendsResolves(t, kept, owner);
    GasRewardExtends(kept, owner, msg, cost);
    ExtendsResolves(kept, GasReward(kept, owner, msg, cost).value, owner);
  }

  lemma GasRewardExtends(t: Tree, owner: Address, msg: Message, cost: int)
    requires GasReward(t, owner, msg, cost).Some?
    ensures Extends(t, GasReward(t, owner, msg, cost).value)
  {
    hide RewardTransfer, Resolve, Extends;
    RewardTransferFacts(t, Resolve(t, msg.from).addr, owner, cost);
  }

  lemma UsedGasIsKnown(actors: Actors, t: Tree, gas: Gas, msg: Message)
    requires var a := Attempt(actors, t, gas, msg); a.Attempted? && a.gas.byMessage > 0
    ensures SenderIsKnown(t, msg) && msg.gasPrice > 0
  {
    hide Resolve, Execute;
  }

  /** After the gas is paid only the nonce changes. */
  lemma ThenOnlyTheNonce(actors: Actors, t: Tree, gas: Gas, msg: Message, owner: Address)
    requires !ApplyMessage(actors, t, gas, msg, owner).outcome.Fault?
    ensures var a, o := Attempt(actors, t, gas, msg), ApplyMessage(actors, t, gas, msg, owner);
            && a.Attempted? && a.gas == o.gas
            && var cost := a.receipt.gasAttoFIL;
            && (cost > 0 ==> GasReward(Kept(t, a), owner, msg, cost).Some?)
            && var paid := if cost > 0 then GasReward(Kept(t, a), owner, msg, cost).value else Kept(t, a);
            && forall x: Address :: BalanceOf(o.tree, x) == BalanceOf(paid, x)
  {
    hide Attempt, Resolve, GasReward, IsTemporary, IsPermanent;
  }

  /** Whatever becomes of a message, its sender pays the owner exactly the gas price of the units it has
      used, on top of what the attempt has done if that was kept, and no other balance changes. */
  lemma MessagePays(actors: Actors, t: Tree, gas: Gas, msg: Message, owner: Address)
    requires Honest(actors) && OwnerReady(t, owner)
    requires !ApplyMessage(actors, t, gas, msg, owner).outcome.Fault?
    ensures Attempt(actors, t, gas, msg).Attempted?
    ensures var o, kept := ApplyMessage(actors, t, gas, msg, owner), Kept(t, Attempt(actors, t, gas, msg));
            var cost := msg.gasPrice * o.gas.byMessage;
            && (cost == 0 || SenderIsKnown(t, msg))
            && forall x: Address :: BalanceOf(o.tree, x) ==
                 BalanceOf(kept, x)
                 + (if Resolve(t, owner) == Resolved(x) then cost else 0)
                 - (if Resolve(t, msg.from) == Resolved(x) then cost else 0)
    ensures var o := ApplyMessage(actors, t, gas, msg, owner);
            o.outcome.Applied? ==> o.outcome.receipt.gasAttoFIL == msg.gasPrice * o.gas.byMessage
  {
    hide Honest, ApplyMessage, Attempt, GasReward, Resolve, Extends;
    var a, o := Attempt(actors, t, gas, msg), ApplyMessage(actors, t, gas, msg, owner);
    ThenOnlyTheNonce(actors, t, gas, msg, owner);
    ChargeIsPriceOfUnits(actors, t, gas, msg);
    if a.gas.byMessage > 0 {
      UsedGasIsKnown(actors, t, gas, msg);
      Positive(msg.gasPrice, a.gas.byMessage);
      PaidFacts(actors, t, gas, msg, owner);
      GasIsPaidToOwner(t, Kept(t, a), owner, msg, a.receipt.gasAttoFIL);
    }
    if o.outcome.Applied? { ReceiptOfAttempt(actors, t, gas, msg, owner); }
  }

  lemma ReceiptOfAttempt(actors: Actors, t: Tree, gas: Gas, msg: Message, owner: Address)
    requires ApplyMessage(actors, t, gas, msg, owner).outcome.Applied?
    ensures var a, o := Attempt(actors, t, gas, msg), ApplyMessage(actors, t, gas, msg, owner).outcome;
            a.Attempted? && o == Applied(a.receipt, a.err)
  {
    hide Attempt, Resolve, GasReward, IsTemporary, IsPermanent;
  }

  /** So a message that was not executed to its end costs its sender the gas and nothing else. */
  lemma FailedPaysGasOnly(actors: Actors, t: Tree, gas: Gas, msg: Message, owner: Address)
    requires Honest(actors) && OwnerReady(t, owner) && SenderIsKnown(t, msg)
    requires var o := ApplyMessage(actors, t, gas, msg, owner).outcome;
             !o.Fault? && (o.Applied? ==> o.executionError.Some?)
    ensures var o := ApplyMessage(actors, t, gas, msg, owner);
            Paid(t, o.tree, Resolve(t, msg.from).addr, Resolve(t, owner).addr, msg.gasPrice * o.gas.byMessage)
  {
    hide Honest, ApplyMessage, Attempt, GasReward, Resolve;
    MessagePays(actors, t, gas, msg, owner);
    var o := ApplyMessage(actors, t, gas, msg, owner).outcome;
    if o.Applied? {
      ReceiptOfAttempt(actors, t, gas, msg, owner);
    } else {
      RejectedHasError(actors, t, gas, msg, owner);
    }
  }

  // ----- the call and its receipt -----

  /** A call is made with the value already moved from the sender to the receiver. */
  lemma CallHasMovedValue(t: Tree, gas: Gas, msg: Message)
    requires SenderIsKnown(t, msg) && GetOrCreate(t, msg.to).Some?
    ensures var c := CallOf(t, gas, msg);
            && c.from == Resolve(t, msg.from).addr && Resolve(c.tree, msg.to) == Resolved(c.to) && c.msg == msg
            && Paid(t, c.tree, c.from, c.to, msg.value)
  {
    hide GetOrCreate, Resolve, Move, Grows;
    var (t1, to) := GetOrCreate(t, msg.to).value;
    var from := Resolve(t, msg.from).addr;
    CreatingIsFree(t, msg.to);
    GetOrCreateExtends(t, msg.to);
    MovePays(t1, from, to, msg.value);
    MoveExtends(t1, from, to, msg.value);
    GrowsKeepsResolution(t1, Move(t1, from, to, msg.value), msg.to);
  }

  /** An applied message with a positive gas price has made its call. */
  lemma AppliedHasCalled(actors: Actors, t: Tree, gas: Gas, msg: Message, owner: Address)
    requires msg.gasPrice > 0 && ApplyMessage(actors, t, gas, msg, owner).outcome.Applied?
    ensures Admissible(t, gas, msg) && GetOrCreate(t, msg.to).Some?
    ensures var a, r := Attempt(actors, t, gas, msg), Invoke(actors, CallOf(t, gas, msg));
            && r.Returned?
            && a == Attempted(r.tree, r.gas, Receipt(r.exitCode, r.ret, msg.gasPrice * r.gas.byMessage),
                              if r.err.None? then None else Some(Vm(r.err.value)))
  {
    hide Attempt, Resolve, GetOrCreate, Send, Invoke, Validate, FitsBlock;
    ReceiptOfAttempt(actors, t, gas, msg, owner);
    AttemptIs(actors, t, gas, msg);
    AppliedIsNoRejection(actors, t, gas, msg, owner);
    ExecuteIs(actors, t, gas, msg);
  }

  lemma AppliedIsNoRejection(actors: Actors, t: Tree, gas: Gas, msg: Message, owner: Address)
    requires ApplyMessage(actors, t, gas, msg, owner).outcome.Applied?
    ensures var a := Attempt(actors, t, gas, msg);
            a.Attempted? && (a.err.Some? ==> !IsTemporary(a.err.value) && !IsPermanent(a.err.value))
  {
    hide Attempt, Resolve, GasReward, IsTemporary, IsPermanent;
  }

  /** The receipt of an applied message.  A call that reaches actor code passes on its exit code, values
      and error, with the price of the units it has used; every other one has an exit code of the VM's
      own and costs nothing.  What is kept is the tree the call left, if it succeeded. */
  lemma ReceiptIs(actors: Actors, t: Tree, gas: Gas, msg: Message, owner: Address)
    requires msg.gasPrice > 0 && ApplyMessage(actors, t, gas, msg, owner).outcome.Applied?
    ensures SenderIsKnown(t, msg) && GetOrCreate(t, msg.to).Some?
    ensures var o, c := ApplyMessage(actors, t, gas, msg, owner).outcome, CallOf(t, gas, msg);
            var kept := Kept(t, Attempt(actors, t, gas, msg));
            if ReachesActor(actors, c) then
              var r := actors.run(c);
              && r.Returned?
              && o == Applied(Receipt(r.exitCode, r.ret, msg.gasPrice * r.gas.byMessage),
                              if r.err.None? then None else Some(Vm(r.err.value)))
              && kept == if r.err.None? then r.tree else t
            else if msg.methodId == 0 then
              o == Applied(Receipt(0, [], 0), None) && kept == c.tree
            else
              && kept == t
              && o == if msg.methodId == 1 && !c.tree[c.from].code.InitCode?
                      then Applied(Receipt(1, [], 0), Some(Vm(ActorError(1))))
                      else if actors.lookup(c.tree[c.to].code, msg.methodId).CodeMissing?
                      then Applied(Receipt(5, [], 0), Some(Vm(NoActorCode)))
                      else Applied(Receipt(1, [], 0), Some(Vm(MissingExport)))
  {
    hide ApplyMessage, Attempt, Resolve, GetOrCreate, CallOf;
    AppliedHasCalled(actors, t, gas, msg, owner);
    ReceiptOfAttempt(actors, t, gas, msg, owner);
    CallIsOnTree(t, gas, msg);
  }

  lemma CallIsOnTree(t: Tree, gas: Gas, msg: Message)
    requires SenderIsKnown(t, msg) && GetOrCreate(t, msg.to).Some?
    ensures var c := CallOf(t, gas, msg);
            c.from in c.tree && c.to in c.tree && c.msg == msg && c.gas.byMessage == 0
  {
    hide Resolve, GetOrCreate;
    GetOrCreateExtends(t, msg.to);
  }

  /** A plain send that is applied moves its value, to an actor found or created, and costs nothing. */
  lemma SendPays(actors: Actors, t: Tree, gas: Gas, msg: Message, owner: Address)
    requires Honest(actors) && OwnerReady(t, owner) && msg.gasPrice > 0 && msg.methodId == SEND_METHOD
    requires ApplyMessage(actors, t, gas, msg, owner).outcome.Applied?
    ensures var o := ApplyMessage(actors, t, gas, msg, owner);
            && SenderIsKnown(t, msg) && GetOrCreate(t, msg.to).Some?
            && Paid(t, o.tree, Resolve(t, msg.from).addr, GetOrCreate(t, msg.to).value.1, msg.value)
  {
    hide Honest, ApplyMessage, Attempt, Resolve, GetOrCreate, Move;
    ReceiptIs(actors, t, gas, msg, owner);
    MessagePays(actors, t, gas, msg, owner);
    CallHasMovedValue(t, gas, msg);
  }
}
