/** `IngestionValidator`: what the pool asks of a message before it takes it. */
module Ingestion {
  import opened Primitives
  import opened StateTree
  import opened Messages
  import opened MessageSemantics
  import opened MessageTheorems

  /** The actor of a sender in the latest state: an empty one if there is none. */
  function SenderActor(t: Tree, a: Address): Option<Actor> {
    match Resolve(t, a)
    case Broken => None
    case Unknown => Some(Actor(NoCode, NoHead, 0, 0))
    case Resolved(id) => Some(if id in t then t[id] else Actor(NoCode, NoHead, 0, 0))
  }

  /** The checks on a message whose signature is right. */
  predicate Ingests(t: Tree, maxNonceGap: Uint64, m: SignedMessage) {
    var act := SenderActor(t, m.message.from);
    && act.Some?
    && !(m.message.callSeqNum > act.value.callSeqNum && m.message.callSeqNum - act.value.callSeqNum > maxNonceGap)
    && Validate(m.message, act.value, true).None?
  }

  /** A message is taken if and only if it could be applied now, but for the room in a block and a
      nonce that may be up to the gap ahead. */
  lemma IngestsIff(t: Tree, maxNonceGap: Uint64, m: SignedMessage)
    requires SenderIsKnown(t, m.message)
    ensures Ingests(t, maxNonceGap, m) <==>
              && WellFunded(t, m.message) && m.message.gasLimit <= BLOCK_GAS_LIMIT
              && var nonce := t[Resolve(t, m.message.from).addr].callSeqNum;
              && nonce <= m.message.callSeqNum <= nonce as int + maxNonceGap
  {
    hide Resolve;
  }

  /** Of a sender without an actor only a message that can cost nothing is taken, and none while the
      address book is broken. */
  lemma IngestsUnknownIff(t: Tree, maxNonceGap: Uint64, m: SignedMessage)
    requires !SenderIsKnown(t, m.message)
    ensures Ingests(t, maxNonceGap, m) <==>
              && !Resolve(t, m.message.from).Broken?
              && m.message.from != m.message.to && m.message.gasPrice > 0
              && m.message.value == 0 && m.message.gasLimit == 0 && m.message.callSeqNum <= maxNonceGap
  {
    hide Resolve;
    if m.message.gasPrice > 0 { Positive(m.message.gasPrice, m.message.gasLimit); }
  }

  // ----- a message that is in a block and was not applied -----

  const SENDER: Address := [0, 101]
  const RECEIVER: Address := [0, 102]

  function Sending(from: Address, to: Address, nonce: Uint64, value: int): Message {
    Message(to, from, nonce, value, SEND_METHOD, [], 1, 10)
  }

  lemma TwoAddresses()
    ensures SENDER != RECEIVER && Protocol(SENDER) == Protocol(RECEIVER) == PROTOCOL_ID
  {
    assert SENDER[1] != RECEIVER[1];
  }

  /** Two accounts with these balances and nonces. */
  function Accounts(sender: int, senderNonce: Uint64, receiver: int, receiverNonce: Uint64): Tree {
    map[SENDER := Actor(AccountCode, NoHead, senderNonce, sender),
        RECEIVER := Actor(AccountCode, NoHead, receiverNonce, receiver)]
  }

  /** A plain transfer between id addresses with actors moves the value, uses no gas and counts. */
  lemma TransferApplies(actors: Actors, t: Tree, gas: Gas, msg: Message, owner: Address)
    requires msg.gasPrice > 0 && Admissible(t, gas, msg) && msg.methodId == SEND_METHOD && msg.value != 0
    requires Protocol(msg.from) == Protocol(msg.to) == PROTOCOL_ID && msg.to in t && msg.from != INIT_ADDRESS
    ensures var moved := Move(t, msg.from, msg.to, msg.value);
            ApplyMessage(actors, t, gas, msg, owner) ==
              ApplyOut(moved[msg.from := moved[msg.from].(callSeqNum := Wrap(moved[msg.from].callSeqNum + 1))],
                       ResetForNewMessage(gas, msg), Applied(Receipt(0, [], 0), None))
  {
    hide Attempt, Execute, Send, Move;
    AttemptIs(actors, t, gas, msg);
    assert GetOrCreate(t, msg.to) == Some((t, msg.to));
    assert CallOf(t, gas, msg).tree == Move(t, msg.from, msg.to, msg.value);
    ExecuteIs(actors, t, gas, msg);
    ExecuteOfSend(actors, t, gas, msg);
    KeysOfMove(t, msg.from, msg.to, msg.value);
  }

  lemma ExecuteOfSend(actors: Actors, t: Tree, gas: Gas, msg: Message)
    requires msg.gasPrice > 0 && Admissible(t, gas, msg) && msg.methodId == SEND_METHOD
    requires GetOrCreate(t, msg.to).Some?
    ensures var g, from := ResetForNewMessage(gas, msg), Resolve(t, msg.from).addr;
            Execute(actors, t, g, from, msg) == Attempted(CallOf(t, gas, msg).tree, g, Receipt(0, [], 0), None)
  {
    hide Send, Resolve, GetOrCreate;
    ExecuteIs(actors, t, gas, msg);
  }

  lemma KeysOfMove(t: Tree, from: Address, to: Address, value: int)
    requires from in t && to in t
    ensures Move(t, from, to, value).Keys == t.Keys
  {
  }

  lemma SenderPays(actors: Actors, s: int, n: Uint64, r: int, k: Uint64, v: int, gas: Gas, owner: Address)
    requires gas.byBlock == 0 && v > 0 && s - v >= 10 && n < TWO_64 - 1
    ensures var msg := Sending(SENDER, RECEIVER, n, v);
            ApplyMessage(actors, Accounts(s, n, r, k), gas, msg, owner) ==
              ApplyOut(Accounts(s - v, n + 1, r + v, k), ResetForNewMessage(gas, msg), Applied(Receipt(0, [], 0), None))
  {
    hide ApplyMessage;
    TwoAddresses();
    var t, msg := Accounts(s, n, r, k), Sending(SENDER, RECEIVER, n, v);
    assert Admissible(t, gas, msg);
    TransferApplies(actors, t, gas, msg, owner);
    var moved := Move(t, SENDER, RECEIVER, v);
    assert moved[SENDER := moved[SENDER].(callSeqNum := n + 1)] == Accounts(s - v, n + 1, r + v, k);
  }

  lemma ReceiverPays(actors: Actors, s: int, n: Uint64, r: int, k: Uint64, v: int, gas: Gas, owner: Address)
    requires gas.byBlock == 0 && v > 0 && r - v >= 10 && k < TWO_64 - 1
    ensures var msg := Sending(RECEIVER, SENDER, k, v);
            ApplyMessage(actors, Accounts(s, n, r, k), gas, msg, owner) ==
              ApplyOut(Accounts(s + v, n, r - v, k + 1), ResetForNewMessage(gas, msg), Applied(Receipt(0, [], 0), None))
  {
    hide ApplyMessage;
    TwoAddresses();
    var t, msg := Accounts(s, n, r, k), Sending(RECEIVER, SENDER, k, v);
    assert Admissible(t, gas, msg);
    TransferApplies(actors, t, gas, msg, owner);
    var moved := Move(t, RECEIVER, SENDER, v);
    assert moved[RECEIVER := moved[RECEIVER].(callSeqNum := k + 1)] == Accounts(s + v, n, r - v, k + 1);
  }

  /** One block, two messages of another one, and what the receiver sends back later. */
  const SPENDS: Message := Sending(SENDER, RECEIVER, 0, 80)
  const FIRST: Message := Sending(SENDER, RECEIVER, 0, 1)
  const SECOND: Message := Sending(SENDER, RECEIVER, 1, 50)
  const RETURNS: Message := Sending(RECEIVER, SENDER, 0, 50)

  /** A block with both messages is right by itself.  After the other block both are rejected, the
      second one for good; and yet the pool takes it as soon as its sender has enough again. */
  lemma UnappliedIsIngested(actors: Actors, owner: Address)
    ensures var alone := ApplyAll(actors, Accounts(100, 0, 0, 0), NO_GAS, [FIRST, SECOND], owner);
            alone.RunOk? && alone.results[0].Success? && alone.results[1].Success?
    ensures ApplyAll(actors, Accounts(100, 0, 0, 0), NO_GAS, [SPENDS], owner).RunOk?
    ensures var spent := ApplyAll(actors, Accounts(100, 0, 0, 0), NO_GAS, [SPENDS], owner).tree;
            var after := ApplyAll(actors, spent, NO_GAS, [FIRST, SECOND], owner);
            && after.RunOk? && after.results == [Failure(NonceTooLow, true), Failure(InsufficientGas, true)]
            && var later := ApplyAll(actors, after.tree, NO_GAS, [RETURNS], owner);
            later.RunOk? && Ingests(later.tree, 100, SignedMessage(SECOND, []))
  {
    hide ApplyMessage;
    SenderPays(actors, 100, 0, 0, 0, 1, NO_GAS, owner);
    SenderPays(actors, 99, 1, 1, 0, 50, ResetForNewMessage(NO_GAS, FIRST), owner);
    TwoResults(actors, Accounts(100, 0, 0, 0), FIRST, SECOND, owner);
    SenderPays(actors, 100, 0, 0, 0, 80, NO_GAS, owner);
    BothRejected(actors, owner);
    ReceiverPays(actors, 20, 1, 80, 0, 50, NO_GAS, owner);
    TwoAddresses();
    OneResult(actors, Accounts(100, 0, 0, 0), SPENDS, owner);
    OneResult(actors, Accounts(20, 1, 80, 0), RETURNS, owner);
    assert Ingests(Accounts(70, 1, 30, 1), 100, SignedMessage(SECOND, []));
  }

  lemma OneResult(actors: Actors, t: Tree, msg: Message, owner: Address)
    requires ApplyMessage(actors, t, NO_GAS, msg, owner).outcome.Applied?
    ensures var r := ApplyAll(actors, t, NO_GAS, [msg], owner);
            r.RunOk? && r.tree == ApplyMessage(actors, t, NO_GAS, msg, owner).tree
  {
    hide ApplyMessage;
    assert [msg][1..] == [];
  }

  lemma TwoResults(actors: Actors, t: Tree, first: Message, second: Message, owner: Address)
    requires var o := ApplyMessage(actors, t, NO_GAS, first, owner);
             !o.outcome.Fault? && !ApplyMessage(actors, o.tree, o.gas, second, owner).outcome.Fault?
    ensures var o := ApplyMessage(actors, t, NO_GAS, first, owner);
            var o' := ApplyMessage(actors, o.tree, o.gas, second, owner);
            ApplyAll(actors, t, NO_GAS, [first, second], owner) ==
              RunOk(o'.tree, o'.gas, [ResultOf(o.outcome), ResultOf(o'.outcome)])
  {
    hide ApplyMessage;
    var o := ApplyMessage(actors, t, NO_GAS, first, owner);
    var o' := ApplyMessage(actors, o.tree, o.gas, second, owner);
    assert [first, second][1..] == [second] && [second][1..] == [];
    assert ApplyAll(actors, o'.tree, o'.gas, [], owner) == RunOk(o'.tree, o'.gas, []);
    assert ApplyAll(actors, o.tree, o.gas, [second], owner) == RunOk(o'.tree, o'.gas, [ResultOf(o'.outcome)] + []);
  }

  lemma BothRejected(actors: Actors, owner: Address)
    ensures var r := ApplyAll(actors, Accounts(20, 1, 80, 0), NO_GAS, [FIRST, SECOND], owner);
            && r.RunOk? && r.tree == Accounts(20, 1, 80, 0)
            && r.results == [Failure(NonceTooLow, true), Failure(InsufficientGas, true)]
  {
    hide Execute, GasReward;
    TwoAddresses();
    var t := Accounts(20, 1, 80, 0);
    var o := ApplyMessage(actors, t, NO_GAS, FIRST, owner);
    assert o == ApplyOut(t, ResetForNewMessage(NO_GAS, FIRST), Permanent(NonceTooLow));
    assert ApplyMessage(actors, t, o.gas, SECOND, owner) ==
             ApplyOut(t, ResetForNewMessage(o.gas, SECOND), Permanent(InsufficientGas));
    TwoResults(actors, t, FIRST, SECOND, owner);
  }
}
