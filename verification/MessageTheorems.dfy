/** Properties of single messages and of whole runs: what is rejected, paid, conserved and
    replayed. */
module MessageTheorems {
  import opened Primitives
  import opened StateTree
  import opened Messages
  import opened MessageSemantics

  // ----- gas -----

  lemma ChargeStaysWithinLimit(g: Gas, cost: Uint64)
    requires g.byMessage <= g.msgLimit
    ensures Charge(g, cost).0.byMessage <= Charge(g, cost).0.msgLimit == g.msgLimit
    ensures !Charge(g, cost).1 ==> Charge(g, cost).0.byMessage == g.msgLimit
  {
  }

  /** A charge is accepted if and only if it is no more than the message has left, or so large that the
      sum passes the end of the 64-bit range. */
  lemma ChargeAcceptedIff(g: Gas, cost: Uint64)
    requires g.byMessage <= g.msgLimit
    ensures Charge(g, cost).1 <==>
              cost <= g.msgLimit - g.byMessage || TWO_64 <= g.byMessage as int + cost <= TWO_64 + g.msgLimit
  {
  }

  /** The block is charged what the message is charged if and only if the charge is accepted or is the
      first of the message: a refused one adds the whole limit to the block, whatever was added
      before. */
  lemma BlockIsChargedTheSameIff(g: Gas, cost: Uint64)
    requires g.byMessage <= g.msgLimit
    ensures var c := Charge(g, cost).0;
            Wrap(c.byBlock as int - g.byBlock) == Wrap(c.byMessage as int - g.byMessage) <==>
              Charge(g, cost).1 || g.byMessage == 0
  {
    var c := Charge(g, cost).0;
    if Charge(g, cost).1 {
      WrapBack(g.byBlock, cost);
      WrapBack(g.byMessage, cost);
    } else {
      WrapBack(g.byBlock, g.msgLimit);
    }
  }

  lemma WrapBack(n: Uint64, k: Uint64)
    ensures Wrap(Wrap(n as int + k) as int - n) == k
  {
  }

  /** For one, a message charged 6 of its 10 units and then 5 more: it has used 10, the block 16. */
  lemma RefusedChargeCountsTwice()
    ensures var c := Charged(Gas(10, 0, 0), [6, 5]); c.byMessage == 10 && c.byBlock == 16
  {
    assert Charged(Gas(10, 6, 6), [5]) == Charged(Gas(10, 16, 10), []);
  }

  /** Charges made one after another, whether accepted or not. */
  function Charged(g: Gas, costs: seq<Uint64>): Gas
    decreases costs
  {
    if costs == [] then g else Charged(Charge(g, costs[0]).0, costs[1..])
  }

  function SumOf(costs: seq<Uint64>): nat {
    if costs == [] then 0 else costs[0] + SumOf(costs[1..])
  }

  /** Whatever is charged, in whatever portions, a message has used the sum, but no more than its
      limit. */
  lemma {:induction false} ChargedIs(g: Gas, costs: seq<Uint64>)
    requires g.byMessage <= g.msgLimit && forall c | c in costs :: g.msgLimit + c < TWO_64
    ensures var used := g.byMessage + SumOf(costs);
            Charged(g, costs).byMessage == if used <= g.msgLimit then used else g.msgLimit
    decreases costs
  {
    if costs != [] {
      var next := Charge(g, costs[0]).0;
      assert costs[0] in costs && next.msgLimit == g.msgLimit;
      forall c | c in costs[1..] ensures g.msgLimit + c < TWO_64 { assert c in costs; }
      ChargedIs(next, costs[1..]);
    }
  }

  lemma SendFacts(actors: Actors, t: Tree, g: Gas, from: Address, to: Address, msg: Message)
    requires Honest(actors) && from in t && to in t && g.byMessage <= g.msgLimit
    requires msg.value >= 0
    ensures var r := Send(actors, t, g, from, to, msg);
            r.Returned? ==>
              && r.gas.byMessage <= r.gas.msgLimit == g.msgLimit
              && (r.err.None? ==> Extends(t, r.tree) && r.tree[from].balance >= t[from].balance - msg.value)
  {
    hide Total;
    var moved := if msg.value != 0 then Transfer(t, from, to, msg.value) else Ok(t);
    if moved.Ok? {
      var c := Call(moved.value, g, from, to, msg);
      MoveExtends(t, from, to, msg.value);
      assert Extends(t, c.tree) && c.tree[from].balance >= t[from].balance - msg.value;
      assert CallOk(c);
      assert HonestCall(c, actors.run(c));
      if Invoke(actors, c).Returned? && Invoke(actors, c).err.None? {
        ExtendsTransitive(t, c.tree, Invoke(actors, c).tree);
      }
    }
  }

  /** After validation the receipt charges for at most the gas limit, and a committed attempt
      only extends the tree. */
  lemma ExecuteFacts(actors: Actors, t: Tree, g: Gas, from: Address, msg: Message)
    requires Honest(actors) && from in t && g.byMessage <= g.msgLimit == msg.gasLimit
    requires Validate(msg, t[from], false).None?
    ensures var a := Execute(actors, t, g, from, msg);
            a.Attempted? ==>
              && a.gas.byMessage <= msg.gasLimit
              && a.receipt.gasAttoFIL == msg.gasPrice * a.gas.byMessage
              && (a.err.None? ==> Extends(t, a.tree) && a.tree[from].balance >= t[from].balance - msg.value)
  {
    if GetOrCreate(t, msg.to).Some? {
      var (t1, to) := GetOrCreate(t, msg.to).value;
      GetOrCreateExtends(t, msg.to);
      SendFacts(actors, t1, g, from, to, msg);
      var r := Send(actors, t1, g, from, to, msg);
      if r.Returned? && r.err.None? {
        ExtendsTransitive(t, t1, r.tree);
      }
    }
  }

  /** The tree left in place by an attempt: the new one if it succeeded, else the old one. */
  function Kept(t: Tree, a: Attempted): Tree
    requires a.Attempted?
  {
    if a.err.None? then a.tree else t
  }

  /** Gas is always payable: whatever an executed message did, and whether it was committed or
      reverted, its sender can afford the gas charged for it. */
  lemma GasIsAffordable(actors: Actors, t: Tree, g: Gas, from: Address, msg: Message)
    requires Honest(actors) && from in t && g.byMessage <= g.msgLimit == msg.gasLimit
    requires Validate(msg, t[from], false).None?
    requires Execute(actors, t, g, from, msg).Attempted?
    ensures var a := Execute(actors, t, g, from, msg);
            from in Kept(t, a) && 0 <= a.receipt.gasAttoFIL <= Kept(t, a)[from].balance
  {
    ExecuteFacts(actors, t, g, from, msg);
    var a := Execute(actors, t, g, from, msg);
    MulMonotonic(msg.gasPrice, a.gas.byMessage, msg.gasLimit);
  }

  lemma MulMonotonic(p: int, x: nat, y: nat)
    requires p >= 0 && x <= y
    ensures 0 <= p * x <= p * y
  {
    assert p * y == p * x + p * (y - x);
  }

  lemma RewardTransferFacts(t: Tree, from: Address, toAddr: Address, value: int)
    ensures var r := RewardTransfer(t, from, toAddr, value);
            r.Some? <==> from in t && GetOrCreate(t, toAddr).Some? && 0 <= value <= t[from].balance
    ensures var r := RewardTransfer(t, from, toAddr, value);
            r.Some? ==>
              Extends(t, r.value) && Resolve(r.value, toAddr).Resolved? && Resolve(r.value, toAddr).addr in r.value
  {
    if from in t && GetOrCreate(t, toAddr).Some? {
      var (t1, to) := GetOrCreate(t, toAddr).value;
      GetOrCreateExtends(t, toAddr);
      if 0 <= value <= t[from].balance {
        MoveExtends(t1, from, to, value);
        ExtendsTransitive(t, t1, Move(t1, from, to, value));
        GrowsKeepsResolution(t1, Move(t1, from, to, value), toAddr);
      }
    }
  }

  /** The owner of the miner has an actor: the state that paying the block reward leaves. */
  predicate OwnerReady(t: Tree, owner: Address) {
    Resolve(t, owner).Resolved? && Resolve(t, owner).addr in t
  }

  /** `GasReward` never turns an executed message into a fault. */
  lemma GasRewardSucceeds(actors: Actors, t: Tree, gas: Gas, msg: Message, owner: Address)
    requires Honest(actors) && OwnerReady(t, owner)
    requires Attempt(actors, t, gas, msg).Attempted?
    ensures var a := Attempt(actors, t, gas, msg);
            a.receipt.gasAttoFIL > 0 ==> GasReward(Kept(t, a), owner, msg, a.receipt.gasAttoFIL).Some?
  {
    var a := Attempt(actors, t, gas, msg);
    if a.receipt.gasAttoFIL > 0 {
      var from := Resolve(t, msg.from).addr;
      var g := ResetForNewMessage(gas, msg);
      GasIsAffordable(actors, t, g, from, msg);
      ExecuteFacts(actors, t, g, from, msg);
      GrowsKeepsResolution(t, Kept(t, a), msg.from);
      GrowsKeepsResolution(t, Kept(t, a), owner);
      RewardTransferFacts(Kept(t, a), from, owner, a.receipt.gasAttoFIL);
    }
  }

  /** The tree a message leaves before its nonce is counted. */
  lemma PaidFacts(actors: Actors, t: Tree, gas: Gas, msg: Message, owner: Address)
    requires Honest(actors)
    requires Attempt(actors, t, gas, msg).Attempted?
    ensures var a := Attempt(actors, t, gas, msg);
            Extends(t, Kept(t, a))
    ensures var a := Attempt(actors, t, gas, msg);
            var r := GasReward(Kept(t, a), owner, msg, a.receipt.gasAttoFIL);
            r.Some? ==> Extends(t, r.value)
  {
    var a := Attempt(actors, t, gas, msg);
    if a.err.None? {
      ExecuteFacts(actors, t, ResetForNewMessage(gas, msg), Resolve(t, msg.from).addr, msg);
    }
    if Resolve(Kept(t, a), msg.from).Resolved? {
      RewardTransferFacts(Kept(t, a), Resolve(Kept(t, a), msg.from).addr, owner, a.receipt.gasAttoFIL);
      var r := GasReward(Kept(t, a), owner, msg, a.receipt.gasAttoFIL);
      if r.Some? { ExtendsTransitive(t, Kept(t, a), r.value); }
    }
  }

  /** Nonces after a message: only the sender of an applied one is counted up. */
  ghost predicate NoncesAfter(t: Tree, t': Tree, msg: Message, applied: bool) {
    forall a: Address ::
      NonceOf(t', a) == Wrap(NonceOf(t, a) + if applied && Resolve(t, msg.from) == Resolved(a) then 1 else 0)
  }

  /** Counting the nonce up moves no money and touches no other nonce. */
  lemma BumpNonceFacts(t: Tree, paid: Tree, g: Gas, msg: Message, receipt: Receipt, err: Option<ApplyError>)
    requires Extends(t, paid) && Resolve(t, msg.from).Resolved?
    ensures var o := BumpNonce(paid, g, msg, receipt, err);
            !o.outcome.Fault? ==> Grows(t, o.tree) && NoncesAfter(t, o.tree, msg, true)
  {
    var o := BumpNonce(paid, g, msg, receipt, err);
    if !o.outcome.Fault? {
      GrowsKeepsResolution(t, paid, msg.from);
      var from := Resolve(t, msg.from).addr;
      TotalUpdate(paid, from, o.tree[from]);
      GrowsTransitive(t, paid, o.tree);
    }
  }

  /** One message conserves money and counts up exactly the nonce of the sender it was applied for. */
  lemma ApplyMessageFacts(actors: Actors, t: Tree, gas: Gas, msg: Message, owner: Address)
    requires Honest(actors)
    ensures var o := ApplyMessage(actors, t, gas, msg, owner);
            !o.outcome.Fault? ==> Grows(t, o.tree) && NoncesAfter(t, o.tree, msg, o.outcome.Applied?)
  {
    var o := ApplyMessage(actors, t, gas, msg, owner);
    var a := Attempt(actors, t, gas, msg);
    if !o.outcome.Fault? {
      PaidFacts(actors, t, gas, msg, owner);
      var paid := if a.receipt.gasAttoFIL > 0
                  then GasReward(Kept(t, a), owner, msg, a.receipt.gasAttoFIL).value else Kept(t, a);
      assert Extends(t, paid);
      if o.outcome.Applied? {
        AppliedIsResolved(actors, t, gas, msg, owner);
        assert o == BumpNonce(paid, a.gas, msg, a.receipt, a.err);
        BumpNonceFacts(t, paid, a.gas, msg, a.receipt, a.err);
      } else {
        assert o.tree == paid;
      }
    }
  }

  lemma AppliedIsResolved(actors: Actors, t: Tree, gas: Gas, msg: Message, owner: Address)
    requires ApplyMessage(actors, t, gas, msg, owner).outcome.Applied?
    ensures Resolve(t, msg.from).Resolved? && Resolve(t, msg.from).addr in t
  {
  }

  // ----- what is applied and what is rejected -----

  /** The checks made on every message before its sender's actor is looked at. */
  predicate FitsBlock(gas: Gas, msg: Message) {
    msg.gasLimit <= BLOCK_GAS_LIMIT && Wrap(msg.gasLimit + gas.byBlock) <= BLOCK_GAS_LIMIT
  }

  /** All conditions a caller can check for a message with a positive gas price. */
  predicate Admissible(t: Tree, gas: Gas, msg: Message) {
    && FitsBlock(gas, msg)
    && Resolve(t, msg.from).Resolved?
    && Resolve(t, msg.from).addr in t
    && msg.from != msg.to
    && var sender := t[Resolve(t, msg.from).addr];
    && (sender.code.NoCode? || sender.code.AccountCode?)
    && msg.value >= 0
    && msg.value + msg.gasPrice * msg.gasLimit <= sender.balance
    && msg.callSeqNum == sender.callSeqNum
  }

  /** The call an admissible message makes: its value has been moved already. */
  function CallOf(t: Tree, gas: Gas, msg: Message): Call
    requires Resolve(t, msg.from).Resolved? && Resolve(t, msg.from).addr in t && GetOrCreate(t, msg.to).Some?
  {
    var from := Resolve(t, msg.from).addr;
    var (t1, to) := GetOrCreate(t, msg.to).value;
    Call(if msg.value != 0 then Move(t1, from, to, msg.value) else t1, ResetForNewMessage(gas, msg), from, to, msg)
  }

  /** Whether a call gets as far as actor code. */
  predicate ReachesActor(actors: Actors, c: Call)
    requires c.from in c.tree && c.to in c.tree
  {
    && c.msg.methodId != SEND_METHOD && c.msg.methodId != INVALID_METHOD
    && (c.msg.methodId == CONSTRUCTOR_METHOD ==> c.tree[c.from].code.InitCode?)
    && actors.lookup(c.tree[c.to].code, c.msg.methodId).Exported?
  }

  predicate CallFaults(actors: Actors, c: Call)
    requires c.from in c.tree && c.to in c.tree
  {
    c.msg.methodId == INVALID_METHOD || (ReachesActor(actors, c) && actors.run(c).CallFault?)
  }

  /** The receiver is there or can be created, and the call does not fault. */
  predicate Executable(actors: Actors, t: Tree, gas: Gas, msg: Message)
    requires Admissible(t, gas, msg)
  {
    GetOrCreate(t, msg.to).Some? && !CallFaults(actors, CallOf(t, gas, msg))
  }

  /** What a message faults for, before anything is done. */
  predicate Faults(actors: Actors, t: Tree, gas: Gas, msg: Message) {
    || (FitsBlock(gas, msg) && Resolve(t, msg.from).Broken?)
    || (msg.gasPrice > 0 && Admissible(t, gas, msg) && !Executable(actors, t, gas, msg))
  }

  /** After validation an execution is the call it makes. */
  lemma ExecuteIs(actors: Actors, t: Tree, gas: Gas, msg: Message)
    requires msg.gasPrice > 0 && Admissible(t, gas, msg) && GetOrCreate(t, msg.to).Some?
    ensures var (t1, to) := GetOrCreate(t, msg.to).value;
            var c := CallOf(t, gas, msg);
            Send(actors, t1, c.gas, c.from, to, msg) == Invoke(actors, c)
  {
    hide Invoke, Resolve, GetOrCreate;
    var from := Resolve(t, msg.from).addr;
    GetOrCreateExtends(t, msg.to);
    MulMonotonic(msg.gasPrice, 0, msg.gasLimit);
    assert msg.value <= GetOrCreate(t, msg.to).value.0[from].balance;
  }

  lemma InvokeFaultsIff(actors: Actors, c: Call)
    requires c.from in c.tree && c.to in c.tree
    ensures Invoke(actors, c).CallFault? <==> CallFaults(actors, c)
    ensures Invoke(actors, c) == Returned(c.tree, c.gas, [], 0, None) || ReachesActor(actors, c)
            || Invoke(actors, c).CallFault? || (Invoke(actors, c).err.Some? && Invoke(actors, c).gas == c.gas
                                                && Invoke(actors, c).err != Some(CannotTransferNegativeValue))
    ensures ReachesActor(actors, c) ==> Invoke(actors, c) == actors.run(c)
  {
  }

  /** An admissible message is executed; any other one ends in an error of its own, and only a broken
      address book makes it fault. */
  lemma AttemptIs(actors: Actors, t: Tree, gas: Gas, msg: Message)
    ensures msg.gasPrice > 0 && Admissible(t, gas, msg) ==>
              var from := Resolve(t, msg.from).addr;
              && Validate(msg, t[from], false).None?
              && Attempt(actors, t, gas, msg) == Execute(actors, t, ResetForNewMessage(gas, msg), from, msg)
    ensures var a := Attempt(actors, t, gas, msg);
            !(msg.gasPrice > 0 && Admissible(t, gas, msg)) ==>
              && (a.AttemptFault? <==> FitsBlock(gas, msg) && Resolve(t, msg.from).Broken?)
              && (a.Attempted? ==> a.err.Some? && a.receipt.gasAttoFIL == 0)
              && (a.Attempted? && msg.gasPrice > 0 ==> IsTemporary(a.err.value) || IsPermanent(a.err.value))
  {
    hide Resolve, Execute;
  }

  lemma AttemptFaultsIff(actors: Actors, t: Tree, gas: Gas, msg: Message)
    ensures Attempt(actors, t, gas, msg).AttemptFault? <==> Faults(actors, t, gas, msg)
  {
    hide Attempt, Resolve, GetOrCreate, Send, Invoke, CallFaults, FitsBlock, Validate;
    AttemptIs(actors, t, gas, msg);
    if msg.gasPrice > 0 && Admissible(t, gas, msg) && GetOrCreate(t, msg.to).Some? {
      ExecuteIs(actors, t, gas, msg);
      InvokeFaultsIff(actors, CallOf(t, gas, msg));
    }
  }

  /** Only an error that is neither temporary nor permanent leaves the sender known. */
  lemma NotRejectedIsResolved(actors: Actors, t: Tree, gas: Gas, msg: Message)
    requires var a := Attempt(actors, t, gas, msg);
             a.Attempted? && (a.err.None? || (!IsTemporary(a.err.value) && !IsPermanent(a.err.value)))
    ensures Resolve(t, msg.from).Resolved? && Resolve(t, msg.from).addr in t
  {
    hide Resolve, Execute;
  }

  /** With the gas reward payable, an attempt that did not fault ends as its error says. */
  lemma OutcomeIs(actors: Actors, t: Tree, gas: Gas, msg: Message, owner: Address)
    requires Honest(actors) && OwnerReady(t, owner)
    ensures var a, o := Attempt(actors, t, gas, msg), ApplyMessage(actors, t, gas, msg, owner).outcome;
            && (o.Fault? <==> a.AttemptFault?)
            && (o.Applied? <==>
                  a.Attempted? && (a.err.None? || (!IsTemporary(a.err.value) && !IsPermanent(a.err.value))))
  {
    hide Honest, Attempt, GasReward, Resolve, IsTemporary, IsPermanent, Extends, Grows;
    var a := Attempt(actors, t, gas, msg);
    if a.Attempted? {
      GasRewardSucceeds(actors, t, gas, msg, owner);
      PaidFacts(actors, t, gas, msg, owner);
      if a.err.None? || (!IsTemporary(a.err.value) && !IsPermanent(a.err.value)) {
        NotRejectedIsResolved(actors, t, gas, msg);
        var paid := if a.receipt.gasAttoFIL > 0
                    then GasReward(Kept(t, a), owner, msg, a.receipt.gasAttoFIL).value else Kept(t, a);
        ExtendsResolves(t, paid, msg.from);
      }
    }
  }

  lemma ExtendsResolves(t: Tree, t': Tree, a: Address)
    requires Extends(t, t') && Resolve(t, a).Resolved? && Resolve(t, a).addr in t
    ensures Resolve(t', a) == Resolve(t, a) && Resolve(t, a).addr in t'
  {
    GrowsKeepsResolution(t, t', a);
  }

  /** A message faults if and only if it fits and the address book is broken, or it is admissible and
      its receiver can be neither found nor created, its method is the invalid one, or its call
      faults.  Nothing else does. */
  lemma FaultIff(actors: Actors, t: Tree, gas: Gas, msg: Message, owner: Address)
    requires Honest(actors) && OwnerReady(t, owner)
    ensures ApplyMessage(actors, t, gas, msg, owner).outcome.Fault? <==> Faults(actors, t, gas, msg)
  {
    hide Honest, ApplyMessage, Attempt, Faults;
    AttemptFaultsIff(actors, t, gas, msg);
    OutcomeIs(actors, t, gas, msg, owner);
  }

  /** A message with a positive gas price is applied exactly when its nonce is the sender's current
      one, no other check rejects it, and its call does not fault. */
  lemma AppliedIff(actors: Actors, t: Tree, gas: Gas, msg: Message, owner: Address)
    requires Honest(actors) && KeepsNegativeTransferInside(actors) && OwnerReady(t, owner)
    requires msg.gasPrice > 0
    ensures ApplyMessage(actors, t, gas, msg, owner).outcome.Applied? <==>
              Admissible(t, gas, msg) && Executable(actors, t, gas, msg)
  {
    hide Honest, ApplyMessage, Attempt, Execute, KeepsNegativeTransferInside, Executable;
    AttemptFaultsIff(actors, t, gas, msg);
    AttemptIs(actors, t, gas, msg);
    OutcomeIs(actors, t, gas, msg, owner);
    if Admissible(t, gas, msg) {
      ExecuteError(actors, t, ResetForNewMessage(gas, msg), Resolve(t, msg.from).addr, msg);
    }
  }

  /** The sender of a message is known and has an actor. */
  predicate SenderIsKnown(t: Tree, msg: Message) {
    Resolve(t, msg.from).Resolved? && Resolve(t, msg.from).addr in t
  }

  /** What the checks on a message of a known sender look at, but for the nonce. */
  predicate WellFunded(t: Tree, msg: Message)
    requires SenderIsKnown(t, msg)
  {
    var sender := t[Resolve(t, msg.from).addr];
    && msg.from != msg.to && msg.gasPrice > 0
    && (sender.code.NoCode? || sender.code.AccountCode?)
    && msg.value >= 0 && msg.value + msg.gasPrice * msg.gasLimit <= sender.balance
  }

  /** What a message is rejected for now: it does not fit into what is left of the block, its sender is
      not known yet, or its nonce is all that is wrong with it and is too high. */
  predicate ForNow(t: Tree, gas: Gas, msg: Message) {
    && msg.gasLimit <= BLOCK_GAS_LIMIT
    && (FitsBlock(gas, msg) ==>
          && !Resolve(t, msg.from).Broken?
          && (SenderIsKnown(t, msg) ==>
                WellFunded(t, msg) && msg.callSeqNum > t[Resolve(t, msg.from).addr].callSeqNum))
  }

  /** What a message is rejected for once and for all: it fits into no block; or it fits, its sender is
      known, and it is to self or, with a positive gas price, not from an account, of a negative value,
      not covered, or of a nonce that is too low. */
  predicate ForGood(t: Tree, gas: Gas, msg: Message) {
    || msg.gasLimit > BLOCK_GAS_LIMIT
    || (FitsBlock(gas, msg) && SenderIsKnown(t, msg) &&
          (msg.from == msg.to ||
            (msg.gasPrice > 0 &&
              (!WellFunded(t, msg) || msg.callSeqNum < t[Resolve(t, msg.from).addr].callSeqNum))))
  }

  /** What an attempt's error makes of the outcome. */
  lemma OutcomeErrs(actors: Actors, t: Tree, gas: Gas, msg: Message, owner: Address)
    requires Honest(actors) && OwnerReady(t, owner)
    ensures var a, o := Attempt(actors, t, gas, msg), ApplyMessage(actors, t, gas, msg, owner).outcome;
            && (o.Temporary? <==> a.Attempted? && a.err.Some? && IsTemporary(a.err.value))
            && (o.Permanent? <==> a.Attempted? && a.err.Some? && IsPermanent(a.err.value))
            && (o.Temporary? || o.Permanent? ==> Some(o.error) == a.err)
  {
    hide Honest, Attempt, GasReward, Resolve;
    if Attempt(actors, t, gas, msg).Attempted? { GasRewardSucceeds(actors, t, gas, msg, owner); }
  }

  /** The error of an attempt that is not executed. */
  lemma EarlyErrors(actors: Actors, t: Tree, gas: Gas, msg: Message)
    requires !(msg.gasPrice > 0 && Admissible(t, gas, msg))
    ensures var a := Attempt(actors, t, gas, msg);
            && (a.Attempted? && a.err.Some? && IsTemporary(a.err.value) <==> ForNow(t, gas, msg))
            && (a.Attempted? && a.err.Some? && IsPermanent(a.err.value) <==> ForGood(t, gas, msg))
  {
    hide Resolve, Execute;
  }

  lemma AdmissibleIsNeither(t: Tree, gas: Gas, msg: Message)
    requires msg.gasPrice > 0 && Admissible(t, gas, msg)
    ensures !ForNow(t, gas, msg) && !ForGood(t, gas, msg)
  {
    hide Resolve;
  }

  /** `ForNow` is exactly when a message is rejected as temporarily inapplicable, and `ForGood` when as
      permanently: with `AppliedIff` and `FaultIff` every outcome has its cause. */
  lemma RejectedIff(actors: Actors, t: Tree, gas: Gas, msg: Message, owner: Address)
    requires Honest(actors) && KeepsNegativeTransferInside(actors) && OwnerReady(t, owner)
    ensures ApplyMessage(actors, t, gas, msg, owner).outcome.Temporary? <==> ForNow(t, gas, msg)
    ensures ApplyMessage(actors, t, gas, msg, owner).outcome.Permanent? <==> ForGood(t, gas, msg)
  {
    hide Honest, KeepsNegativeTransferInside, ApplyMessage, Attempt, Execute, Resolve, ForNow, ForGood;
    OutcomeErrs(actors, t, gas, msg, owner);
    if msg.gasPrice > 0 && Admissible(t, gas, msg) {
      AdmissibleIsNeither(t, gas, msg);
      AttemptIs(actors, t, gas, msg);
      ExecuteError(actors, t, ResetForNewMessage(gas, msg), Resolve(t, msg.from).addr, msg);
    } else {
      EarlyErrors(actors, t, gas, msg);
    }
  }

  /** The first check that a message to be rejected fails. */
  function FirstFailure(t: Tree, gas: Gas, msg: Message): ApplyError {
    if msg.gasLimit > 10_000_000 then GasAboveBlockLimit
    else if Wrap(msg.gasLimit + gas.byBlock) > 10_000_000 then GasTooHighForCurrentBlock
    else if !SenderIsKnown(t, msg) then FromAccountNotFound
    else if msg.from == msg.to then SelfSend
    else
      var sender := t[Resolve(t, msg.from).addr];
      if !sender.code.NoCode? && !sender.code.AccountCode? then NonAccountActor
      else if msg.value < 0 then NegativeValue
      else if msg.value + msg.gasPrice * msg.gasLimit > sender.balance then InsufficientGas
      else if msg.callSeqNum < sender.callSeqNum then NonceTooLow
      else NonceTooHigh
  }

  lemma EarlyErrorIs(actors: Actors, t: Tree, gas: Gas, msg: Message)
    requires !(msg.gasPrice > 0 && Admissible(t, gas, msg))
    requires var a := Attempt(actors, t, gas, msg);
             a.Attempted? && a.err.Some? && (IsTemporary(a.err.value) || IsPermanent(a.err.value))
    ensures Attempt(actors, t, gas, msg).err.value == FirstFailure(t, gas, msg)
  {
    hide Resolve, Execute;
  }

  /** A rejection names the first check that fails: the gas limits, the sender, the message to self, the
      kind of actor, the value, the funds and last the nonce. */
  lemma RejectedWith(actors: Actors, t: Tree, gas: Gas, msg: Message, owner: Address)
    requires Honest(actors) && KeepsNegativeTransferInside(actors) && OwnerReady(t, owner)
    requires var o := ApplyMessage(actors, t, gas, msg, owner).outcome; o.Temporary? || o.Permanent?
    ensures ApplyMessage(actors, t, gas, msg, owner).outcome.error == FirstFailure(t, gas, msg)
  {
    hide Honest, KeepsNegativeTransferInside, ApplyMessage, Attempt, Resolve, ForNow, ForGood, Admissible;
    RejectedIff(actors, t, gas, msg, owner);
    OutcomeErrs(actors, t, gas, msg, owner);
    if msg.gasPrice > 0 && Admissible(t, gas, msg) { AdmissibleIsNeither(t, gas, msg); }
    EarlyErrorIs(actors, t, gas, msg);
  }

  /** A message that cannot be paid for is not applied with an error: it is rejected for good, if and
      only if nothing that is checked before is wrong. */
  lemma InsufficientFundsIff(actors: Actors, t: Tree, gas: Gas, msg: Message, owner: Address)
    ensures ApplyMessage(actors, t, gas, msg, owner).outcome == Permanent(InsufficientGas) <==>
              && FitsBlock(gas, msg) && SenderIsKnown(t, msg) && msg.from != msg.to && msg.gasPrice > 0
              && var sender := t[Resolve(t, msg.from).addr];
              && (sender.code.NoCode? || sender.code.AccountCode?) && msg.value >= 0
              && msg.value + msg.gasPrice * msg.gasLimit > sender.balance
  {
    hide Resolve, Execute, GasReward, BumpNonce;
    BumpNonceOutcome(msg);
    if msg.gasPrice > 0 && Admissible(t, gas, msg) {
      AttemptIs(actors, t, gas, msg);
      ExecuteErrs(actors, t, ResetForNewMessage(gas, msg), Resolve(t, msg.from).addr, msg);
    }
  }

  lemma BumpNonceOutcome(msg: Message)
    ensures forall t, g, r, e :: var o := BumpNonce(t, g, msg, r, e).outcome; o.Fault? || o.Applied?
  {
  }

  lemma ExecuteErrs(actors: Actors, t: Tree, g: Gas, from: Address, msg: Message)
    requires from in t
    ensures var a := Execute(actors, t, g, from, msg); a.Attempted? && a.err.Some? ==> a.err.value.Vm?
  {
  }

  /** For one, a sender of 5 with a message of value 10. */
  lemma PoorSenderIsRejected(actors: Actors, owner: Address)
    ensures exists t: Tree, msg: Message ::
              && SenderIsKnown(t, msg) && t[Resolve(t, msg.from).addr].balance < msg.value
              && ApplyMessage(actors, t, NO_GAS, msg, owner).outcome == Permanent(InsufficientGas)
  {
    hide ApplyMessage;
    var sender: Address := [0, 101];
    var t: Tree := map[sender := Actor(AccountCode, NoHead, 0, 5)];
    var msg := Message([0, 102], sender, 0, 10, 0, [], 1, 10);
    assert msg.from[1] != msg.to[1];
    InsufficientFundsIff(actors, t, NO_GAS, msg, owner);
    assert SenderIsKnown(t, msg) && t[Resolve(t, msg.from).addr].balance == 5;
  }

  /** An id address is never created: a message to one without an actor is not rejected, it faults,
      and the block with it, though it passes every check. */
  lemma UnusedIdFaults(actors: Actors, t: Tree, gas: Gas, msg: Message, owner: Address)
    requires msg.gasPrice > 0 && Admissible(t, gas, msg) && Protocol(msg.to) == PROTOCOL_ID && msg.to !in t
    ensures ApplyMessage(actors, t, gas, msg, owner).outcome.Fault?
  {
    hide Execute;
    AttemptFaultsIff(actors, t, gas, msg);
  }

  /** After validation the transfer of the value cannot fail, so the only error an execution can
      end with is one returned by actor code or by method dispatch. */
  lemma ExecuteError(actors: Actors, t: Tree, g: Gas, from: Address, msg: Message)
    requires from in t && Validate(msg, t[from], false).None?
    ensures var a := Execute(actors, t, g, from, msg);
            a.Attempted? && a.err.Some? ==>
              && a.err.value.Vm?
              && (KeepsNegativeTransferInside(actors) ==> a.err.value != Vm(CannotTransferNegativeValue))
  {
    if GetOrCreate(t, msg.to).Some? {
      GetOrCreateExtends(t, msg.to);
      var (t1, to) := GetOrCreate(t, msg.to).value;
      MulMonotonic(msg.gasPrice, 0, msg.gasLimit);
      assert msg.value <= t1[from].balance;
      var c := Call(if msg.value != 0 then Move(t1, from, to, msg.value) else t1, g, from, to, msg);
      assert Send(actors, t1, g, from, to, msg) == Invoke(actors, c);
    }
  }

  lemma EarlyErrorChangesNothing(actors: Actors, t: Tree, gas: Gas, msg: Message)
    requires var a := Attempt(actors, t, gas, msg); a.Attempted? && a.err.Some? && !a.err.value.Vm?
    ensures var a := Attempt(actors, t, gas, msg);
            a.tree == t && a.receipt.gasAttoFIL == 0 && a.gas == ResetForNewMessage(gas, msg)
  {
  }

  /** A rejection that does not come from executing the message leaves the tree, and the gas
      used by the block, exactly as they were. */
  lemma RejectionLeavesStateUnchanged(actors: Actors, t: Tree, gas: Gas, msg: Message, owner: Address)
    requires var o := ApplyMessage(actors, t, gas, msg, owner).outcome;
             (o.Temporary? || o.Permanent?) && o.error != Vm(CannotTransferNegativeValue)
    ensures var o := ApplyMessage(actors, t, gas, msg, owner);
            o.tree == t && o.gas.byBlock == gas.byBlock
  {
    EarlyErrorChangesNothing(actors, t, gas, msg);
  }

  /** So with actors that keep the negative-transfer error inside, every rejection does. */
  lemma EveryRejectionLeavesStateUnchanged(actors: Actors, t: Tree, gas: Gas, msg: Message, owner: Address)
    requires KeepsNegativeTransferInside(actors)
    requires var o := ApplyMessage(actors, t, gas, msg, owner).outcome; o.Temporary? || o.Permanent?
    ensures var o := ApplyMessage(actors, t, gas, msg, owner);
            o.tree == t && o.gas.byBlock == gas.byBlock
  {
    var g := ResetForNewMessage(gas, msg);
    var o := ApplyMessage(actors, t, gas, msg, owner).outcome;
    if o.error == Vm(CannotTransferNegativeValue) {
      ExecuteError(actors, t, g, Resolve(t, msg.from).addr, msg);
    }
    RejectionLeavesStateUnchanged(actors, t, gas, msg, owner);
  }

  /** The call gets to actor code, which uses gas and then returns the VM's negative-transfer error. */
  predicate Leaks(actors: Actors, t: Tree, gas: Gas, msg: Message) {
    && msg.gasPrice > 0 && Admissible(t, gas, msg) && GetOrCreate(t, msg.to).Some?
    && var c := CallOf(t, gas, msg);
    && ReachesActor(actors, c)
    && actors.run(c).Returned? && actors.run(c).err == Some(CannotTransferNegativeValue)
    && actors.run(c).gas.byMessage > 0
  }

  /** The exact condition without that contract: a rejection leaves the tree as it was if and only if
      actor code did not leak the error after using gas, or the sender is the very actor that gas is
      paid to. */
  lemma RejectionUnchangedIff(actors: Actors, t: Tree, gas: Gas, msg: Message, owner: Address)
    requires OwnerReady(t, owner)
    requires var o := ApplyMessage(actors, t, gas, msg, owner).outcome; o.Temporary? || o.Permanent?
    ensures ApplyMessage(actors, t, gas, msg, owner).tree == t <==>
              !Leaks(actors, t, gas, msg) || Resolve(t, owner) == Resolve(t, msg.from)
  {
    RejectedPays(actors, t, gas, msg, owner);
    RejectedHasError(actors, t, gas, msg, owner);
    PaysIffLeaks(actors, t, gas, msg);
    hide ApplyMessage, Attempt, Leaks;
    var cost := Attempt(actors, t, gas, msg).receipt.gasAttoFIL;
    if cost > 0 { GasRewardMoves(t, owner, msg, cost); }
  }

  lemma RejectedHasError(actors: Actors, t: Tree, gas: Gas, msg: Message, owner: Address)
    requires var o := ApplyMessage(actors, t, gas, msg, owner).outcome; o.Temporary? || o.Permanent?
    ensures var a := Attempt(actors, t, gas, msg);
            a.Attempted? && a.err.Some? && (IsTemporary(a.err.value) || IsPermanent(a.err.value))
  {
    hide Attempt, GasReward, Resolve, IsTemporary, IsPermanent;
  }

  lemma PaysIffLeaks(actors: Actors, t: Tree, gas: Gas, msg: Message)
    requires var a := Attempt(actors, t, gas, msg);
             a.Attempted? && a.err.Some? && (IsTemporary(a.err.value) || IsPermanent(a.err.value))
    ensures Attempt(actors, t, gas, msg).receipt.gasAttoFIL > 0 <==> Leaks(actors, t, gas, msg)
  {
    hide Attempt, Resolve, GetOrCreate, Send, Invoke, ReachesActor, FitsBlock, Validate;
    AttemptIs(actors, t, gas, msg);
    if msg.gasPrice > 0 && Admissible(t, gas, msg) && GetOrCreate(t, msg.to).Some? {
      var c := CallOf(t, gas, msg);
      ExecuteIs(actors, t, gas, msg);
      InvokeFaultsIff(actors, c);
      var r := Invoke(actors, c);
      Positive(msg.gasPrice, r.gas.byMessage);
      assert r.err.value == CannotTransferNegativeValue;
    }
  }

  lemma Positive(price: int, units: nat)
    requires price > 0
    ensures price * units > 0 <==> units > 0
  {
    if units > 0 { MulMonotonic(price, 1, units); }
  }

  /** A rejection changes the tree by the gas reward alone. */
  lemma RejectedPays(actors: Actors, t: Tree, gas: Gas, msg: Message, owner: Address)
    requires var o := ApplyMessage(actors, t, gas, msg, owner).outcome; o.Temporary? || o.Permanent?
    ensures var a := Attempt(actors, t, gas, msg);
            && a.Attempted?
            && (a.receipt.gasAttoFIL > 0 ==> GasReward(t, owner, msg, a.receipt.gasAttoFIL).Some?)
            && ApplyMessage(actors, t, gas, msg, owner).tree ==
                 if a.receipt.gasAttoFIL > 0 then GasReward(t, owner, msg, a.receipt.gasAttoFIL).value else t
  {
    hide Attempt, GasReward, Resolve, IsTemporary, IsPermanent;
  }

  lemma GasRewardMoves(t: Tree, owner: Address, msg: Message, cost: int)
    requires OwnerReady(t, owner) && cost > 0 && GasReward(t, owner, msg, cost).Some?
    ensures GasReward(t, owner, msg, cost).value == t <==> Resolve(t, owner) == Resolve(t, msg.from)
  {
    hide Resolve;
    var from, to := Resolve(t, msg.from).addr, Resolve(t, owner).addr;
    var paid := GasReward(t, owner, msg, cost).value;
    assert paid == Move(t, from, to, cost);
    if from != to { assert paid[from].balance != t[from].balance; }
    else { assert paid == t; }
  }

  // ----- the contract on actor code is inhabited, and its last part is needed -----

  /** An actor that sends one unit back to whoever calls it, while it has any. */
  function PayBack(c: Call): CallResult {
    if c.from in c.tree && c.to in c.tree && c.tree[c.to].balance > 0 then
      Returned(Move(c.tree, c.to, c.from, 1), c.gas, [], 0, None)
    else
      Returned(c.tree, c.gas, [], 1, Some(ActorError(1)))
  }

  const PAYING: Actors := Actors((code, m) => Exported, PayBack)

  /** The contract can be met by code that succeeds and changes the tree. */
  lemma PayingIsHonest()
    ensures Honest(PAYING) && KeepsNegativeTransferInside(PAYING)
    ensures exists c :: CallOk(c) && PAYING.run(c).Returned? && PAYING.run(c).err.None? && PAYING.run(c).tree != c.tree
  {
    forall c: Call | CallOk(c) ensures HonestCall(c, PAYING.run(c)) {
      MoveExtends(c.tree, c.to, c.from, 1);
    }
    var from, to: Address := [0, 101], [0, 102];
    var t: Tree := map[from := Actor(AccountCode, NoHead, 0, 0), to := Actor(OtherCode(0), NoHead, 0, 5)];
    assert from[1] != to[1];
    var c := Call(t, NO_GAS, from, to, Message(to, from, 0, 0, 2, [], 1, 10));
    assert PAYING.run(c).tree[to].balance == 4;
    assert CallOk(c) && PAYING.run(c).Returned? && PAYING.run(c).err.None? && PAYING.run(c).tree != c.tree;
  }

  /** An actor whose method charges one unit of gas and then fails on a negative nested send. */
  function LeakyRun(c: Call): CallResult {
    Returned(c.tree, Charge(c.gas, 1).0, [], 2, Some(CannotTransferNegativeValue))
  }

  const LEAKY: Actors := Actors((code, m) => Exported, LeakyRun)

  lemma LeakyIsHonest()
    ensures Honest(LEAKY)
  {
    forall c: Call | CallOk(c) ensures HonestCall(c, LEAKY.run(c)) {
      ChargeStaysWithinLimit(c.gas, 1);
    }
  }

  /** With it a message is rejected as permanently inapplicable, yet its sender has paid: so what
      `KeepsNegativeTransferInside` asks of actors is needed. */
  lemma LeakedNegativeTransferIsCharged()
    ensures Honest(LEAKY)
    ensures exists t: Tree, msg: Message, owner: Address ::
              var o := ApplyMessage(LEAKY, t, NO_GAS, msg, owner);
              o.outcome == Permanent(Vm(CannotTransferNegativeValue)) && o.tree != t
  {
    LeakyIsHonest();
    hide Honest;
    var sender, callee, owner: Address := [0, 101], [0, 102], [0, 103];
    var rich := Actor(AccountCode, NoHead, 0, 10);
    var t: Tree := map[sender := rich, callee := Actor(OtherCode(0), NoHead, 0, 0),
                       owner := Actor(AccountCode, NoHead, 0, 0)];
    var msg := Message(callee, sender, 0, 0, 2, [], 1, 10);
    assert sender[1] != callee[1] && sender[1] != owner[1] && callee[1] != owner[1];
    var g := ResetForNewMessage(NO_GAS, msg);
    assert Attempt(LEAKY, t, NO_GAS, msg) == Execute(LEAKY, t, g, sender, msg);
    assert Send(LEAKY, t, g, sender, callee, msg) == LeakyRun(Call(t, g, sender, callee, msg));
    var a := Attempt(LEAKY, t, NO_GAS, msg);
    assert a.receipt.gasAttoFIL == 1;
    assert GasReward(t, owner, msg, 1) == Some(Move(t, sender, owner, 1));
    var o := ApplyMessage(LEAKY, t, NO_GAS, msg, owner);
    assert o.tree[sender].balance == 9;
    assert o.outcome == Permanent(Vm(CannotTransferNegativeValue)) && o.tree != t;
  }
}
