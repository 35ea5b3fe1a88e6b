/** What the gas limit of a block means for the messages run in it. */
module BlockGas {
  import opened Primitives
  import opened StateTree
  import opened Messages
  import opened MessageSemantics
  import opened MessageTheorems

  const MAX_CHARGES: nat := 1_000_000_000_000

  /** Gas changed by charges alone, not absurdly many or large. */
  ghost predicate ByCharges(g: Gas, g': Gas) {
    exists costs: seq<Uint64> :: Reasonable(costs) && g' == Charged(g, costs)
  }

  predicate Reasonable(costs: seq<Uint64>) {
    |costs| <= MAX_CHARGES && forall c | c in costs :: c < TWO_63
  }

  /** Actors that touch the gas tracker by charging only. */
  ghost predicate ChargesOnly(actors: Actors) {
    forall c: Call :: actors.run(c).Returned? ==> ByCharges(c.gas, actors.run(c).gas)
  }

  /** The sum of the charges that are accepted, and the number of those that are not. */
  function AcceptedSum(g: Gas, costs: seq<Uint64>): nat
    decreases costs
  {
    if costs == [] then 0
    else (if Charge(g, costs[0]).1 then costs[0] else 0) + AcceptedSum(Charge(g, costs[0]).0, costs[1..])
  }

  function Refused(g: Gas, costs: seq<Uint64>): (r: nat)
    ensures r <= |costs|
    decreases costs
  {
    if costs == [] then 0
    else (if Charge(g, costs[0]).1 then 0 else 1) + Refused(Charge(g, costs[0]).0, costs[1..])
  }

  lemma OneCharge(g: Gas, cost: Uint64)
    requires g.byMessage <= g.msgLimit <= BLOCK_GAS_LIMIT && cost < TWO_63 && g.byBlock + g.msgLimit < TWO_64
    ensures var (c, ok) := Charge(g, cost);
            && c.msgLimit == g.msgLimit && c.byMessage <= c.msgLimit
            && c.byBlock == g.byBlock + (if ok then cost else g.msgLimit)
            && (ok ==> c.byMessage == g.byMessage + cost) && (!ok ==> c.byMessage == g.msgLimit)
  {
  }

  /** The block is charged every accepted charge, and the whole limit for every refused one.  So it has
      counted more than its limit if and only if that sum is more, which is never less than what the
      message has used, and just as much if no charge is refused. */
  lemma {:induction false} CountedIs(g: Gas, costs: seq<Uint64>)
    requires g.byMessage <= g.msgLimit <= BLOCK_GAS_LIMIT && forall c | c in costs :: c < TWO_63
    requires g.byBlock + |costs| * g.msgLimit < TWO_64
    ensures var c := Charged(g, costs);
            && c.msgLimit == g.msgLimit && c.byMessage <= c.msgLimit
            && c.byBlock == g.byBlock + AcceptedSum(g, costs) + g.msgLimit * Refused(g, costs)
            && c.byBlock - g.byBlock >= c.byMessage - g.byMessage
            && c.byBlock <= g.byBlock + |costs| * g.msgLimit
            && (Refused(g, costs) == 0 ==> c.byBlock - g.byBlock == c.byMessage - g.byMessage)
    decreases costs
  {
    if costs != [] {
      assert costs[0] in costs;
      Times(|costs|, g.msgLimit);
      OneCharge(g, costs[0]);
      var next := Charge(g, costs[0]).0;
      forall c | c in costs[1..] ensures c < TWO_63 { assert c in costs; }
      assert |costs[1..]| == |costs| - 1;
      CountedIs(next, costs[1..]);
      Add(g.msgLimit, Refused(next, costs[1..]));
    }
  }

  lemma Times(n: nat, k: nat)
    requires n > 0
    ensures n * k == (n - 1) * k + k && (n - 1) * k >= 0
  {
  }

  lemma Add(k: nat, n: nat)
    ensures k * (n + 1) == k * n + k
  {
  }

  /** For one, a message that uses its whole limit in two charges, of which the second is refused: the
      block has counted more than it may hold. */
  lemma CountedPassesLimit()
    ensures Charged(Gas(BLOCK_GAS_LIMIT, 0, 0), [1, BLOCK_GAS_LIMIT]).byBlock > BLOCK_GAS_LIMIT
  {
    var g := Gas(BLOCK_GAS_LIMIT, 1, 1);
    assert [1, BLOCK_GAS_LIMIT][1..] == [BLOCK_GAS_LIMIT] && [BLOCK_GAS_LIMIT][1..] == [];
    assert Charge(Gas(BLOCK_GAS_LIMIT, 0, 0), 1).0 == g;
    assert Charged(g, [BLOCK_GAS_LIMIT]) == Charge(g, BLOCK_GAS_LIMIT).0;
  }

  /** What the gas of a block comes to at most. */
  const CAP: nat := BLOCK_GAS_LIMIT + MAX_CHARGES * BLOCK_GAS_LIMIT

  /** The gas an execution leaves is that of the call it makes. */
  lemma ExecutedGas(actors: Actors, t: Tree, gas: Gas, msg: Message)
    requires ChargesOnly(actors) && msg.gasPrice > 0 && Admissible(t, gas, msg)
    ensures var g := ResetForNewMessage(gas, msg);
            ByCharges(g, Execute(actors, t, g, Resolve(t, msg.from).addr, msg).gas)
  {
    hide Resolve, GetOrCreate, Send, Invoke, ByCharges, Admissible;
    var g := ResetForNewMessage(gas, msg);
    NoCharges(g);
    AdmissibleIsKnown(t, gas, msg);
    if GetOrCreate(t, msg.to).Some? {
      var c := CallOf(t, gas, msg);
      ExecuteIs(actors, t, gas, msg);
      InvokeFaultsIff(actors, c);
    }
  }

  lemma AdmissibleIsKnown(t: Tree, gas: Gas, msg: Message)
    requires Admissible(t, gas, msg)
    ensures Resolve(t, msg.from).Resolved? && Resolve(t, msg.from).addr in t
  {
  }

  lemma NoCharges(g: Gas)
    ensures ByCharges(g, g)
  {
    assert Reasonable([]) && g == Charged(g, []);
  }

  /** What one message does to the gas of a block: it uses no more than is left, and counts at least
      what it uses. */
  lemma MessageGas(actors: Actors, t: Tree, gas: Gas, msg: Message, owner: Address)
    requires ChargesOnly(actors) && gas.byBlock <= CAP
    ensures var g := ApplyMessage(actors, t, gas, msg, owner).gas;
            && gas.byBlock + g.byMessage <= g.byBlock <= CAP
            && (g.byMessage > 0 ==> gas.byBlock + g.byMessage <= BLOCK_GAS_LIMIT)
  {
    GasOfAttempt(actors, t, gas, msg, owner);
    hide ApplyMessage, Attempt, Execute, ChargesOnly, Resolve, ByCharges, FitsBlock, Validate;
    AttemptIs(actors, t, gas, msg);
    EarlyGas(actors, t, gas, msg);
    if msg.gasPrice > 0 && Admissible(t, gas, msg) {
      ExecutedGas(actors, t, gas, msg);
      var g := ResetForNewMessage(gas, msg);
      FitsMeans(gas, msg);
      ChargedFits(g, Attempt(actors, t, gas, msg).gas);
    }
  }

  lemma GasOfAttempt(actors: Actors, t: Tree, gas: Gas, msg: Message, owner: Address)
    ensures ApplyMessage(actors, t, gas, msg, owner).gas == Attempt(actors, t, gas, msg).gas
  {
    hide Attempt, GasReward, Resolve;
  }

  lemma EarlyGas(actors: Actors, t: Tree, gas: Gas, msg: Message)
    ensures !(msg.gasPrice > 0 && Admissible(t, gas, msg)) ==>
              Attempt(actors, t, gas, msg).gas == ResetForNewMessage(gas, msg)
  {
    hide Resolve, Execute;
  }

  lemma FitsMeans(gas: Gas, msg: Message)
    requires FitsBlock(gas, msg) && gas.byBlock <= CAP
    ensures msg.gasLimit + gas.byBlock <= BLOCK_GAS_LIMIT
  {
    assert msg.gasLimit + gas.byBlock < TWO_64;
  }

  lemma ChargedFits(g: Gas, g': Gas)
    requires ByCharges(g, g') && g.byMessage == 0 && g.msgLimit + g.byBlock <= BLOCK_GAS_LIMIT
    ensures g.byBlock + g'.byMessage <= g'.byBlock <= CAP && g'.byMessage <= g.msgLimit
  {
    var costs :| Reasonable(costs) && g' == Charged(g, costs);
    Bounded(|costs|, g.msgLimit);
    CountedIs(g, costs);
  }

  lemma Bounded(n: nat, k: nat)
    requires n <= MAX_CHARGES && k <= BLOCK_GAS_LIMIT
    ensures n * k <= MAX_CHARGES * BLOCK_GAS_LIMIT
  {
    MulMonotonic(k, n, MAX_CHARGES);
    MulMonotonic(MAX_CHARGES, k, BLOCK_GAS_LIMIT);
  }

  /** The gas used, and so paid for, by the messages of a run. */
  function GasUsed(actors: Actors, t: Tree, gas: Gas, msgs: seq<Message>, owner: Address): nat
    decreases |msgs|
  {
    if msgs == [] then 0
    else
      var o := ApplyMessage(actors, t, gas, msgs[0], owner);
      o.gas.byMessage + if o.outcome.Fault? then 0 else GasUsed(actors, o.tree, o.gas, msgs[1..], owner)
  }

  lemma {:induction false} RunGas(actors: Actors, t: Tree, gas: Gas, msgs: seq<Message>, owner: Address, used: nat)
    requires ChargesOnly(actors) && used <= gas.byBlock <= CAP && used <= BLOCK_GAS_LIMIT
    ensures used + GasUsed(actors, t, gas, msgs, owner) <= BLOCK_GAS_LIMIT
    decreases |msgs|
  {
    hide ApplyMessage, ChargesOnly;
    if msgs != [] {
      MessageGas(actors, t, gas, msgs[0], owner);
      var o := ApplyMessage(actors, t, gas, msgs[0], owner);
      RunGas(actors, o.tree, o.gas, msgs[1..], owner, used + o.gas.byMessage);
    }
  }

  /** In every block, whatever its messages and however they end, the gas used by all of them together
      is within the limit of the block. */
  lemma BlockGasIsBounded(actors: Actors, t: Tree, msgs: seq<Message>, owner: Address)
    requires ChargesOnly(actors) && BlockReward(t, owner).Some?
    ensures GasUsed(actors, BlockReward(t, owner).value, NO_GAS, msgs, owner) <= BLOCK_GAS_LIMIT
  {
    hide ChargesOnly, GasUsed, BlockReward;
    RunGas(actors, BlockReward(t, owner).value, NO_GAS, msgs, owner, 0);
  }
}
